/**
 * The JavaScript string operations the component relies on, over
 * `seq<char>`: `indexOf`, `split` on a non-empty separator, `join`
 * and `trim`.
 */
module Strings {
  import opened Wrappers

  /** `s[i..i + |t|]` is an occurrence of `t`. */
  predicate OccursAt(s: string, t: string, i: int)
  {
    0 <= i && i + |t| <= |s| && s[i..i + |t|] == t
  }

  /** `t` occurs somewhere in `s`. */
  predicate Contains(s: string, t: string)
  {
    exists i | 0 <= i <= |s| :: OccursAt(s, t, i)
  }

  /** `Array.prototype.indexOf`: the first position of `x`, or none. */
  function IndexOf<T(==)>(s: seq<T>, x: T): Option<nat>
  {
    if |s| == 0 then None
    else if s[0] == x then Some(0)
    else match IndexOf(s[1..], x)
      case None => None
      case Some(i) => Some(i + 1)
  }

  /** `indexOf` finds nothing exactly when `x` is absent, and otherwise its first position. */
  lemma {:induction false} IndexOfFinds<T>(s: seq<T>, x: T)
    ensures IndexOf(s, x).None? <==> x !in s
    ensures IndexOf(s, x).Some? ==>
      var i := IndexOf(s, x).value;
      i < |s| && s[i] == x && x !in s[..i]
  {
    if |s| > 0 && s[0] != x {
      IndexOfFinds(s[1..], x);
      assert s == [s[0]] + s[1..];
      if IndexOf(s[1..], x).Some? {
        var i := IndexOf(s[1..], x).value;
        assert s[..i + 1] == [s[0]] + s[1..][..i];
      }
    }
  }

  /**
   * `s.split(sep)` for a non-empty separator: the pieces between the
   * leftmost non-overlapping occurrences of `sep`.
   */
  function Split(s: string, sep: string): (parts: seq<string>)
    requires sep != []
    ensures |parts| >= 1
    decreases |s|
  {
    if |s| < |sep| then [s]
    else if s[..|sep|] == sep then [[]] + Split(s[|sep|..], sep)
    else
      var rest := Split(s[1..], sep);
      [[s[0]] + rest[0]] + rest[1..]
  }

  /** `parts.join(sep)`. */
  function Join(parts: seq<string>, sep: string): string
  {
    if |parts| == 0 then []
    else if |parts| == 1 then parts[0]
    else parts[0] + sep + Join(parts[1..], sep)
  }

  /** Joining with the separator that was split on gives back the string. */
  lemma {:induction false} JoinSplit(s: string, sep: string)
    requires sep != []
    ensures Join(Split(s, sep), sep) == s
    decreases |s|
  {
    if |s| < |sep| {
    } else if s[..|sep|] == sep {
      var rest := Split(s[|sep|..], sep);
      assert Split(s, sep) == [[]] + rest;
      JoinSplit(s[|sep|..], sep);
      JoinConsEmpty(rest, sep);
      assert s == sep + s[|sep|..];
    } else {
      var rest := Split(s[1..], sep);
      assert Split(s, sep) == [[s[0]] + rest[0]] + rest[1..];
      JoinSplit(s[1..], sep);
      JoinConsHead(s[0], rest, sep);
      assert s == [s[0]] + s[1..];
    }
  }

  lemma JoinConsEmpty(parts: seq<string>, sep: string)
    requires |parts| >= 1
    ensures Join([[]] + parts, sep) == sep + Join(parts, sep)
  {
    assert ([[]] + parts)[1..] == parts;
  }

  lemma JoinConsHead(c: char, parts: seq<string>, sep: string)
    requires |parts| >= 1
    ensures Join([[c] + parts[0]] + parts[1..], sep) == [c] + Join(parts, sep)
  {
    var ps := [[c] + parts[0]] + parts[1..];
    assert ps[1..] == parts[1..];
  }

  /** The first piece of a split is a prefix of the string. */
  lemma {:induction false} SplitHeadIsPrefix(s: string, sep: string)
    requires sep != []
    ensures |Split(s, sep)[0]| <= |s| && Split(s, sep)[0] == s[..|Split(s, sep)[0]|]
    decreases |s|
  {
    if |s| < |sep| {
    } else if s[..|sep|] == sep {
      assert Split(s, sep)[0] == [];
    } else {
      var rest := Split(s[1..], sep);
      var q := rest[0];
      SplitHeadIsPrefix(s[1..], sep);
      assert Split(s, sep)[0] == [s[0]] + q;
      assert q == s[1..][..|q|] == s[1..|q| + 1];
      assert [s[0]] + q == s[..|q| + 1];
    }
  }

  /** No piece of a split contains the separator. */
  lemma {:induction false} SplitPiecesFree(s: string, sep: string)
    requires sep != []
    ensures forall k :: 0 <= k < |Split(s, sep)| ==> !Contains(Split(s, sep)[k], sep)
    decreases |s|
  {
    var parts := Split(s, sep);
    if |s| < |sep| {
      assert parts == [s];
      forall i | OccursAt(s, sep, i) ensures false { }
    } else if s[..|sep|] == sep {
      SplitPiecesFree(s[|sep|..], sep);
      var rest := Split(s[|sep|..], sep);
      assert parts == [[]] + rest;
      assert !Contains([], sep);
      forall k | 1 <= k < |parts| ensures !Contains(parts[k], sep) {
        assert parts[k] == rest[k - 1];
      }
    } else {
      var rest := Split(s[1..], sep);
      SplitPiecesFree(s[1..], sep);
      assert parts == [[s[0]] + rest[0]] + rest[1..];
      ConsHeadFree(s, sep);
      forall k | 1 <= k < |parts| ensures !Contains(parts[k], sep) {
        assert parts[k] == rest[k];
      }
    }
  }

  /** Extending a separator-free first piece by a character that does not start a separator. */
  lemma ConsHeadFree(s: string, sep: string)
    requires sep != [] && |s| >= |sep| && s[..|sep|] != sep
    requires !Contains(Split(s[1..], sep)[0], sep)
    ensures !Contains([s[0]] + Split(s[1..], sep)[0], sep)
  {
    var t := s[1..];
    var q := Split(t, sep)[0];
    SplitHeadIsPrefix(t, sep);
    assert q == t[..|q|] == s[1..|q| + 1];
    PrefixConsFree(s, q, sep);
  }

  lemma PrefixConsFree(s: string, q: string, sep: string)
    requires |s| >= |sep| && s[..|sep|] != sep
    requires |q| < |s| && q == s[1..|q| + 1]
    requires !Contains(q, sep)
    ensures !Contains([s[0]] + q, sep)
  {
    var p := [s[0]] + q;
    assert p == s[..|p|];
    forall i | 0 <= i <= |p| && OccursAt(p, sep, i) ensures false {
      if i > 0 {
        assert p[i..i + |sep|] == q[i - 1..i - 1 + |sep|];
        assert OccursAt(q, sep, i - 1);
      }
    }
  }

  /** A string without the separator splits into itself alone. */
  lemma {:induction false} SplitWithoutSeparator(s: string, sep: string)
    requires sep != [] && !Contains(s, sep)
    ensures Split(s, sep) == [s]
    decreases |s|
  {
    if |s| < |sep| {
    } else {
      assert !OccursAt(s, sep, 0);
      forall i | OccursAt(s[1..], sep, i) ensures false {
        assert s[1..][i..i + |sep|] == s[i + 1..i + 1 + |sep|];
        assert OccursAt(s, sep, i + 1);
      }
      SplitWithoutSeparator(s[1..], sep);
      assert s == [s[0]] + s[1..];
    }
  }

  /** Characters `String.prototype.trim` removes: ECMAScript WhiteSpace and LineTerminator. */
  predicate IsJsWhitespace(c: char)
  {
    || c == '\t' || c == '\n' || c == '\U{B}' || c == '\U{C}' || c == '\r' || c == ' '
    || c == '\U{A0}' || c == '\U{1680}' || ('\U{2000}' <= c <= '\U{200A}')
    || c == '\U{2028}' || c == '\U{2029}' || c == '\U{202F}' || c == '\U{205F}'
    || c == '\U{3000}' || c == '\U{FEFF}'
  }

  function TrimStart(s: string): (r: string)
    ensures |r| <= |s| && r == s[|s| - |r|..]
    ensures forall k :: 0 <= k < |s| - |r| ==> IsJsWhitespace(s[k])
    ensures r == [] || !IsJsWhitespace(r[0])
  {
    if |s| > 0 && IsJsWhitespace(s[0]) then TrimStart(s[1..]) else s
  }

  function TrimEnd(s: string): (r: string)
    ensures |r| <= |s| && r == s[..|r|]
    ensures forall k :: |r| <= k < |s| ==> IsJsWhitespace(s[k])
    ensures r == [] || !IsJsWhitespace(r[|r| - 1])
  {
    if |s| > 0 && IsJsWhitespace(s[|s| - 1]) then TrimEnd(s[..|s| - 1]) else s
  }

  /** `r` is `s[i..j]`, and everything of `s` outside that slice is white space. */
  predicate TrimmedSlice(s: string, r: string, i: int, j: int)
  {
    && 0 <= i <= j <= |s| && r == s[i..j]
    && (forall k :: 0 <= k < i ==> IsJsWhitespace(s[k]))
    && (forall k :: j <= k < |s| ==> IsJsWhitespace(s[k]))
  }

  /** `s.trim()`: white space cut from both ends. */
  function Trim(s: string): (r: string)
    ensures r == [] || (!IsJsWhitespace(r[0]) && !IsJsWhitespace(r[|r| - 1]))
  {
    TrimEnd(TrimStart(s))
  }

  /** `s.trim()` is a slice of `s` with nothing but white space around it. */
  lemma TrimIsSlice(s: string)
    ensures exists i, j :: TrimmedSlice(s, Trim(s), i, j)
  {
    var t := TrimStart(s);
    var r := TrimEnd(t);
    assert Trim(s) == r;
    assert TrimmedSlice(s, r, |s| - |t|, |s| - |t| + |r|) by {
      TrimBothEnds(s, t, r);
    }
  }

  /** Cutting white space off the front, then off the back, leaves a slice with white space around it. */
  lemma TrimBothEnds(s: string, t: string, r: string)
    requires |t| <= |s| && t == s[|s| - |t|..] && forall k :: 0 <= k < |s| - |t| ==> IsJsWhitespace(s[k])
    requires |r| <= |t| && r == t[..|r|] && forall k :: |r| <= k < |t| ==> IsJsWhitespace(t[k])
    ensures TrimmedSlice(s, r, |s| - |t|, |s| - |t| + |r|)
  {
    var i := |s| - |t|;
    assert r == s[i..i + |r|];
    forall k | i + |r| <= k < |s| ensures IsJsWhitespace(s[k]) {
      assert s[k] == t[k - i];
    }
  }
}
