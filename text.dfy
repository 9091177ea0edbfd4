/** The JavaScript string builtins the core relies on: `Array(n).fill(c).join("")`,
    `String.prototype.split` with a string separator and `Array.prototype.join`. */
module Text {

  /** `Array(n).fill(c).join("")`: `n` copies of `c`. */
  function Repeat(c: char, n: nat): (r: string)
    ensures |r| == n
    ensures forall i :: 0 <= i < n ==> r[i] == c
  {
    if n == 0 then "" else [c] + Repeat(c, n - 1)
  }

  /** `parts.join(sep)`. */
  function Join(parts: seq<string>, sep: string): string
  {
    if |parts| == 0 then ""
    else if |parts| == 1 then parts[0]
    else parts[0] + sep + Join(parts[1..], sep)
  }

  /** `s.split(sep)` for a non-empty string separator: the pieces between the
      non-overlapping occurrences of `sep`, scanning from the left. */
  function Split(s: string, sep: string): (r: seq<string>)
    requires |sep| > 0
    ensures |r| >= 1
    decreases |s|
  {
    if |s| < |sep| then [s]
    else if s[..|sep|] == sep then [""] + Split(s[|sep|..], sep)
    else
      var rest := Split(s[1..], sep);
      [[s[0]] + rest[0]] + rest[1..]
  }

  /** Joining a first piece in front of at least one more. */
  lemma JoinCons(x: string, rest: seq<string>, sep: string)
    requires |rest| >= 1
    ensures Join([x] + rest, sep) == x + sep + Join(rest, sep)
  {
    assert ([x] + rest)[1..] == rest;
  }

  /** Regrouping a character in front of three strings. */
  lemma PrependThree(c: char, a: string, b: string, d: string)
    ensures [c] + a + b + d == [c] + (a + b + d)
  {
    var x := [c] + a + b + d;
    var y := [c] + (a + b + d);
    assert |x| == |y|;
    forall i | 0 <= i < |x| ensures x[i] == y[i] {
      if i == 0 {
      } else if i <= |a| {
        assert x[i] == a[i - 1];
      } else if i <= |a| + |b| {
        assert x[i] == b[i - 1 - |a|];
      } else {
        assert x[i] == d[i - 1 - |a| - |b|];
      }
    }
  }

  /** Joining the pieces of a split with the same separator gives back the string. */
  lemma {:induction false} JoinSplit(s: string, sep: string)
    requires |sep| > 0
    ensures Join(Split(s, sep), sep) == s
    decreases |s|
  {
    if |s| < |sep| {
    } else if s[..|sep|] == sep {
      JoinSplit(s[|sep|..], sep);
      JoinSplitAtSeparator(s, sep);
    } else {
      JoinSplit(s[1..], sep);
      JoinSplitAtChar(s, sep);
    }
  }

  /** The step of `JoinSplit` when `s` starts with the separator. */
  lemma JoinSplitAtSeparator(s: string, sep: string)
    requires |sep| > 0 && |s| >= |sep| && s[..|sep|] == sep
    requires Join(Split(s[|sep|..], sep), sep) == s[|sep|..]
    ensures Join(Split(s, sep), sep) == s
  {
    var rest := Split(s[|sep|..], sep);
    assert Split(s, sep) == [""] + rest;
    JoinCons("", rest, sep);
    assert "" + sep == sep;
    assert Join(Split(s, sep), sep) == sep + s[|sep|..];
    assert s == s[..|sep|] + s[|sep|..];
  }

  /** The step of `JoinSplit` when `s` does not start with the separator. */
  lemma JoinSplitAtChar(s: string, sep: string)
    requires |sep| > 0 && |s| >= |sep| && s[..|sep|] != sep
    requires Join(Split(s[1..], sep), sep) == s[1..]
    ensures Join(Split(s, sep), sep) == s
  {
    var rest := Split(s[1..], sep);
    assert Split(s, sep) == [[s[0]] + rest[0]] + rest[1..];
    JoinShift(s[0], rest, sep);
    assert s == [s[0]] + s[1..];
  }

  /** Joining after a character is put in front of the first piece puts it in front
      of the join. */
  lemma JoinShift(c: char, rest: seq<string>, sep: string)
    requires |rest| >= 1
    ensures Join([[c] + rest[0]] + rest[1..], sep) == [c] + Join(rest, sep)
  {
    var r := [[c] + rest[0]] + rest[1..];
    if |rest| == 1 {
      assert r == [[c] + rest[0]];
    } else {
      var tail := Join(rest[1..], sep);
      assert rest == [rest[0]] + rest[1..];
      JoinCons(rest[0], rest[1..], sep);
      JoinCons([c] + rest[0], rest[1..], sep);
      PrependThree(c, rest[0], sep, tail);
    }
  }

  /** `t` begins with `sep`. */
  predicate StartsWith(t: string, sep: string)
  {
    |sep| <= |t| && t[..|sep|] == sep
  }

  /** `sep` occurs nowhere in `s`. */
  predicate Free(s: string, sep: string)
  {
    forall i :: 0 <= i < |s| ==> !StartsWith(s[i..], sep)
  }

  /** A one-character separator is absent exactly when the character is. */
  lemma FreeChar(s: string, c: char)
    ensures Free(s, [c]) <==> c !in s
  {
    if c in s {
      var i :| 0 <= i < |s| && s[i] == c;
      assert s[i..][..1] == [c];
    } else {
      forall i | 0 <= i < |s| ensures !StartsWith(s[i..], [c]) {
        assert s[i] != c;
      }
    }
  }

  /** The first piece of a split is a prefix of the split string. */
  lemma {:induction false} SplitFirstPrefix(s: string, sep: string)
    requires |sep| > 0
    ensures Split(s, sep)[0] <= s
    decreases |s|
  {
    if |s| >= |sep| && s[..|sep|] != sep {
      var rest := Split(s[1..], sep);
      SplitFirstPrefix(s[1..], sep);
      assert Split(s, sep)[0] == [s[0]] + rest[0];
      assert s == [s[0]] + s[1..];
    }
  }

  /** No piece of a split contains the separator: the split is at every occurrence. */
  lemma {:induction false} SplitPiecesFree(s: string, sep: string)
    requires |sep| > 0
    ensures forall k :: 0 <= k < |Split(s, sep)| ==> Free(Split(s, sep)[k], sep)
    decreases |s|
  {
    var r := Split(s, sep);
    if |s| < |sep| {
      assert r == [s];
      forall i | 0 <= i < |s| ensures !StartsWith(s[i..], sep) {
        assert |s[i..]| < |sep|;
      }
    } else if s[..|sep|] == sep {
      var rest := Split(s[|sep|..], sep);
      SplitPiecesFree(s[|sep|..], sep);
      assert r == [""] + rest;
      forall k | 1 <= k < |r| ensures Free(r[k], sep) {
        assert r[k] == rest[k - 1];
      }
    } else {
      var rest := Split(s[1..], sep);
      SplitPiecesFree(s[1..], sep);
      SplitFirstPrefix(s[1..], sep);
      assert r == [[s[0]] + rest[0]] + rest[1..];
      ConsFree(s[0], rest[0], s, sep);
      forall k | 1 <= k < |r| ensures Free(r[k], sep) {
        assert r[k] == rest[k];
      }
    }
  }

  /** A piece grown by one character in front stays free of `sep` when the string it
      is a prefix of does not start with `sep`. */
  lemma ConsFree(c: char, t: string, s: string, sep: string)
    requires |sep| > 0 && Free(t, sep) && [c] + t <= s && !StartsWith(s, sep)
    ensures Free([c] + t, sep)
  {
    var p := [c] + t;
    forall i | 0 <= i < |p| ensures !StartsWith(p[i..], sep) {
      if i == 0 {
        assert p[0..] == p;
        if |sep| <= |p| {
          assert p[..|sep|] == s[..|sep|];
        }
      } else {
        assert p[i..] == t[i - 1..];
      }
    }
  }

  /** Splitting a string that starts with a piece in which the separator's first
      character does not occur. */
  lemma {:induction false} SplitAfterFree(x: string, s: string, sep: string)
    requires |sep| > 0 && sep[0] !in x
    ensures Split(x + s, sep) == [x + Split(s, sep)[0]] + Split(s, sep)[1..]
    decreases |x|
  {
    var r := Split(s, sep);
    if x != [] {
      var t := x + s;
      if |t| < |sep| {
        assert r == [s];
      } else {
        assert t[..|sep|] != sep by { assert t[0] == x[0]; }
        assert t[1..] == x[1..] + s;
        SplitAfterFree(x[1..], s, sep);
        assert [x[0]] + (x[1..] + r[0]) == x + r[0];
      }
    } else {
      assert x + s == s;
      assert x + r[0] == r[0];
      assert r == [r[0]] + r[1..];
    }
  }

  /** Splitting undoes joining pieces in which the separator's first character does
      not occur. */
  lemma {:induction false} SplitJoin(parts: seq<string>, sep: string)
    requires |parts| >= 1 && |sep| > 0
    requires forall i :: 0 <= i < |parts| ==> sep[0] !in parts[i]
    ensures Split(Join(parts, sep), sep) == parts
    decreases |parts|
  {
    if |parts| == 1 {
      SplitAfterFree(parts[0], "", sep);
      assert parts[0] + "" == parts[0];
    } else {
      var tail := Join(parts[1..], sep);
      SplitJoin(parts[1..], sep);
      var t := sep + tail;
      assert t[..|sep|] == sep;
      assert t[|sep|..] == tail;
      assert Split(t, sep) == [""] + parts[1..];
      assert Join(parts, sep) == parts[0] + t;
      SplitAfterFree(parts[0], t, sep);
      assert parts[0] + "" == parts[0];
    }
  }

  /** Three pieces free of the separator's first character come back from their join. */
  lemma SplitThree(a: string, b: string, c: string, sep: string)
    requires |sep| > 0 && sep[0] !in a && sep[0] !in b && sep[0] !in c
    ensures Split(a + sep + b + sep + c, sep) == [a, b, c]
  {
    var parts := [a, b, c];
    JoinCons(b, [c], sep);
    assert [b, c] == [b] + [c];
    JoinCons(a, [b, c], sep);
    assert parts == [a] + [b, c];
    assert Join(parts, sep) == a + sep + (b + sep + c);
    assert a + sep + (b + sep + c) == a + sep + b + sep + c;
    SplitJoin(parts, sep);
  }

  /** Appending one more piece after a join. */
  lemma {:induction false} JoinSnoc(parts: seq<string>, x: string, sep: string)
    requires |parts| >= 1
    ensures Join(parts + [x], sep) == Join(parts, sep) + sep + x
    decreases |parts|
  {
    if |parts| > 1 {
      assert (parts + [x])[1..] == parts[1..] + [x];
      JoinSnoc(parts[1..], x, sep);
    }
  }
}
