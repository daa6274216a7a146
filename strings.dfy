/**
 * The Python string operations the modelled code relies on: `str.isspace`,
 * `str.strip()`, `str.split(sep)` and the lexicographic order of `<` on strings.
 */
module Strings {
  import opened Decimal

  /** The characters `str.isspace()` (and `\s` in a `str` pattern) accepts. */
  predicate IsSpace(c: char) {
    var k := c as int;
    || 9 <= k <= 13 || 28 <= k <= 32 || k == 0x85 || k == 0xA0 || k == 0x1680
    || 0x2000 <= k <= 0x200A || k == 0x2028 || k == 0x2029 || k == 0x202F
    || k == 0x205F || k == 0x3000
  }

  predicate AllSpaces(s: string) {
    forall i :: 0 <= i < |s| ==> IsSpace(s[i])
  }

  /** The length of the longest whitespace prefix of `s`. */
  function LeadingSpaces(s: string): (k: nat)
    ensures k <= |s| && forall i :: 0 <= i < k ==> IsSpace(s[i])
    ensures k < |s| ==> !IsSpace(s[k])
  {
    if s == [] || !IsSpace(s[0]) then 0 else 1 + LeadingSpaces(s[1..])
  }

  /** The length of the longest whitespace suffix of `s`. */
  function TrailingSpaces(s: string): (k: nat)
    ensures k <= |s| && forall i :: |s| - k <= i < |s| ==> IsSpace(s[i])
    ensures k < |s| ==> !IsSpace(s[|s| - k - 1])
  {
    if s == [] || !IsSpace(s[|s| - 1]) then 0 else 1 + TrailingSpaces(s[..|s| - 1])
  }

  /** `s.strip()`: `s` without its leading and trailing whitespace. */
  function Strip(s: string): string {
    var t := s[LeadingSpaces(s)..];
    t[..|t| - TrailingSpaces(t)]
  }

  /** A string that neither starts nor ends with whitespace. */
  predicate Trimmed(r: string) {
    r == [] || (!IsSpace(r[0]) && !IsSpace(r[|r| - 1]))
  }

  /** A whitespace run followed by a non-space character (or nothing) is the whole leading run. */
  lemma LeadingSpacesOf(p: string, r: string)
    requires AllSpaces(p) && (r == [] || !IsSpace(r[0]))
    ensures LeadingSpaces(p + r) == |p|
  {
    var s := p + r;
    var k := LeadingSpaces(s);
    assert forall i :: 0 <= i < |p| ==> s[i] == p[i];
    assert r != [] ==> s[|p|] == r[0];
  }

  /** A whitespace run preceded by a non-space character (or nothing) is the whole trailing run. */
  lemma TrailingSpacesOf(r: string, q: string)
    requires AllSpaces(q) && (r == [] || !IsSpace(r[|r| - 1]))
    ensures TrailingSpaces(r + q) == |q|
  {
    var t := r + q;
    var k := TrailingSpaces(t);
    assert forall i :: 0 <= i < |q| ==> t[|r| + i] == q[i];
    assert r != [] ==> t[|r| - 1] == r[|r| - 1];
  }

  /** The result of `strip` neither starts nor ends with whitespace. */
  lemma StripTrimmed(s: string)
    ensures Trimmed(Strip(s))
  {
    var t := s[LeadingSpaces(s)..];
    var m := t[..|t| - TrailingSpaces(t)];
    if m != [] {
      assert m[0] == t[0];
      assert m[|m| - 1] == t[|t| - TrailingSpaces(t) - 1];
    }
  }

  /**
   * `Strip(s)` is the middle of the decomposition `s == p + r + q` in which
   * `p` and `q` are whitespace and `r` is trimmed; with `StripTrimmed`, this
   * makes `strip` the unique such middle part.
   */
  lemma StripDecomposition(s: string, p: string, r: string, q: string)
    requires s == p + r + q && AllSpaces(p) && AllSpaces(q) && Trimmed(r)
    ensures Strip(s) == r
  {
    if r == [] {
      assert AllSpaces(s) by {
        forall i | 0 <= i < |s| ensures IsSpace(s[i]) {
          if i < |p| { assert s[i] == p[i]; } else { assert s[i] == q[i - |p|]; }
        }
      }
      assert LeadingSpaces(s) == |s|;
    } else {
      assert s == p + (r + q);
      LeadingSpacesOf(p, r + q);
      var t := s[|p|..];
      assert t == r + q;
      TrailingSpacesOf(r, q);
      assert t[..|t| - |q|] == r;
    }
  }

  /** Stripping twice is stripping once. */
  lemma StripIdempotent(s: string)
    ensures Strip(Strip(s)) == Strip(s)
  {
    StripTrimmed(s);
    StripDecomposition(Strip(s), [], Strip(s), []);
  }

  /** `s.split(sep)`: the pieces between the separators, empty ones included. */
  function Split(s: string, sep: char): (r: seq<string>)
    ensures |r| >= 1
    decreases |s|
  {
    if s == [] then [[]]
    else
      var rest := Split(s[1..], sep);
      if s[0] == sep then [[]] + rest else [[s[0]] + rest[0]] + rest[1..]
  }

  /** The pieces `ps` joined with `sep` between each two (`sep.join(ps)`). */
  function Join(ps: seq<string>, sep: char): string
    requires |ps| >= 1
    decreases |ps|
  {
    if |ps| == 1 then ps[0] else ps[0] + [sep] + Join(ps[1..], sep)
  }

  predicate NoSeparator(ps: seq<string>, sep: char) {
    forall i :: 0 <= i < |ps| ==> sep !in ps[i]
  }

  /** Joining the pieces of a split gives back the string, and no piece holds the separator. */
  lemma SplitJoin(s: string, sep: char)
    ensures Join(Split(s, sep), sep) == s
    ensures NoSeparator(Split(s, sep), sep)
  {
    JoinSplit(s, sep);
    SplitNoSeparator(s, sep);
  }

  lemma {:induction false} JoinSplit(s: string, sep: char)
    ensures Join(Split(s, sep), sep) == s
    decreases |s|
  {
    if s != [] {
      var rest := Split(s[1..], sep);
      JoinSplit(s[1..], sep);
      if s[0] == sep {
        JoinEmptyFirst(rest, sep);
      } else {
        JoinExtendFirst(s[0], rest, sep);
      }
      assert s == [s[0]] + s[1..];
    }
  }

  /** An empty first piece puts a separator in front of the rest. */
  lemma JoinEmptyFirst(ps: seq<string>, sep: char)
    requires |ps| >= 1
    ensures Join([[]] + ps, sep) == [sep] + Join(ps, sep)
  {
    assert ([[]] + ps)[1..] == ps;
  }

  /** A character added at the front of the first piece is at the front of the join. */
  lemma JoinExtendFirst(c: char, ps: seq<string>, sep: char)
    requires |ps| >= 1
    ensures Join([[c] + ps[0]] + ps[1..], sep) == [c] + Join(ps, sep)
  {
    var qs := [[c] + ps[0]] + ps[1..];
    assert qs[1..] == ps[1..];
  }

  lemma {:induction false} SplitNoSeparator(s: string, sep: char)
    ensures NoSeparator(Split(s, sep), sep)
    decreases |s|
  {
    if s != [] {
      var rest := Split(s[1..], sep);
      SplitNoSeparator(s[1..], sep);
      var r := Split(s, sep);
      if s[0] != sep {
        assert r == [[s[0]] + rest[0]] + rest[1..];
        forall i | 0 <= i < |r| ensures sep !in r[i] {
          if i > 0 { assert r[i] == rest[i]; }
        }
      } else {
        assert r == [[]] + rest;
        forall i | 0 <= i < |r| ensures sep !in r[i] {
          if i > 0 { assert r[i] == rest[i - 1]; }
        }
      }
    }
  }

  /** Joining two lists of pieces joins their joins. */
  lemma {:induction false} JoinAppend(ps: seq<string>, qs: seq<string>, sep: char)
    requires |ps| >= 1 && |qs| >= 1
    ensures Join(ps + qs, sep) == Join(ps, sep) + [sep] + Join(qs, sep)
    decreases |ps|
  {
    if |ps| == 1 {
      assert (ps + qs)[1..] == qs;
    } else {
      JoinAppend(ps[1..], qs, sep);
      assert (ps + qs)[1..] == ps[1..] + qs;
    }
  }

  /** Splitting `a + sep + b` splits `a` and `b` and puts the pieces together. */
  lemma SplitAppend(a: string, b: string, sep: char)
    ensures Split(a + [sep] + b, sep) == Split(a, sep) + Split(b, sep)
  {
    var ps, qs := Split(a, sep), Split(b, sep);
    SplitJoin(a, sep);
    SplitJoin(b, sep);
    JoinAppend(ps, qs, sep);
    assert NoSeparator(ps + qs, sep) by {
      forall i | 0 <= i < |ps + qs| ensures sep !in (ps + qs)[i] {
        if i >= |ps| { assert (ps + qs)[i] == qs[i - |ps|]; }
      }
    }
    SplitUnique(ps + qs, sep);
  }

  /** `Split` is the only way to cut a string into separator-free pieces. */
  lemma {:induction false} SplitUnique(ps: seq<string>, sep: char)
    requires |ps| >= 1 && NoSeparator(ps, sep)
    ensures Split(Join(ps, sep), sep) == ps
    decreases |Join(ps, sep)|
  {
    var s := Join(ps, sep);
    if ps[0] == [] {
      if |ps| > 1 {
        assert s == [sep] + Join(ps[1..], sep);
        assert s[1..] == Join(ps[1..], sep);
        assert NoSeparator(ps[1..], sep) by {
          forall i | 0 <= i < |ps| - 1 ensures sep !in ps[1..][i] { assert ps[1..][i] == ps[i + 1]; }
        }
        SplitUnique(ps[1..], sep);
        assert ps == [[]] + ps[1..];
      }
    } else {
      var c := ps[0][0];
      var qs := [ps[0][1..]] + ps[1..];
      assert NoSeparator(qs, sep) by {
        forall i | 0 <= i < |qs| ensures sep !in qs[i] {
          if i == 0 {
            assert sep !in ps[0];
            assert forall x :: x in ps[0][1..] ==> x in ps[0];
          } else {
            assert qs[i] == ps[i];
          }
        }
      }
      assert s == [c] + Join(qs, sep) by {
        if |ps| == 1 {
          assert ps[0] == [c] + ps[0][1..];
        } else {
          assert Join(qs, sep) == ps[0][1..] + [sep] + Join(qs[1..], sep);
          assert qs[1..] == ps[1..];
          assert ps[0] == [c] + ps[0][1..];
        }
      }
      assert s[1..] == Join(qs, sep);
      SplitUnique(qs, sep);
      assert c != sep by { assert ps[0][0] == c; }
      assert [c] + qs[0] == ps[0];
      assert qs[1..] == ps[1..];
      assert ps == [ps[0]] + ps[1..];
    }
  }

  /** Python's `a < b` on strings: compare code points left to right; a proper prefix is smaller. */
  predicate LexLess(a: string, b: string)
    decreases |a|
  {
    if a == [] then b != []
    else if b == [] then false
    else if a[0] != b[0] then a[0] < b[0]
    else LexLess(a[1..], b[1..])
  }

  /** `LexLess` is a strict total order. */
  lemma {:induction false} LexLessIsStrictTotal(a: string, b: string, c: string)
    ensures !LexLess(a, a)
    ensures LexLess(a, b) && LexLess(b, c) ==> LexLess(a, c)
    ensures a != b ==> LexLess(a, b) || LexLess(b, a)
    decreases |a|
  {
    if a != [] && b != [] && c != [] {
      LexLessIsStrictTotal(a[1..], b[1..], c[1..]);
      if a != b && a[0] == b[0] {
        assert a == [a[0]] + a[1..] && b == [b[0]] + b[1..];
      }
    } else if a != [] && b != [] {
      LexLessIsStrictTotal(a[1..], b[1..], []);
      if a != b && a[0] == b[0] {
        assert a == [a[0]] + a[1..] && b == [b[0]] + b[1..];
      }
    } else if a != [] {
      LexLessIsStrictTotal(a[1..], [], []);
    }
  }

  /** Strings of equal length compared by their first parts decide the comparison of any extensions. */
  lemma {:induction false} LexLessExtend(a: string, b: string, c: string, d: string)
    requires |a| == |c| && LexLess(a, c)
    ensures LexLess(a + b, c + d)
    decreases |a|
  {
    if a[0] == c[0] {
      assert (a + b)[1..] == a[1..] + b && (c + d)[1..] == c[1..] + d;
      LexLessExtend(a[1..], b, c[1..], d);
    }
  }

  /** A common prefix does not change a comparison. */
  lemma {:induction false} LexLessCommonPrefix(a: string, b: string, d: string)
    requires LexLess(b, d)
    ensures LexLess(a + b, a + d)
    decreases |a|
  {
    if a != [] {
      assert (a + b)[1..] == a[1..] + b && (a + d)[1..] == a[1..] + d;
      LexLessCommonPrefix(a[1..], b, d);
    } else {
      assert a + b == b && a + d == d;
    }
  }

  /** Zero-padded numbers of one width compare as strings as they compare as numbers. */
  lemma {:induction false} PadOrder(a: nat, b: nat, w: nat)
    requires a < b < Pow10(w)
    ensures LexLess(Pad(a, w), Pad(b, w))
    decreases w
  {
    if a / 10 < b / 10 {
      PadOrder(a / 10, b / 10, w - 1);
      LexLessExtend(Pad(a / 10, w - 1), [DigitChar(a % 10)], Pad(b / 10, w - 1), [DigitChar(b % 10)]);
    } else {
      assert [DigitChar(a % 10)][1..] == [];
      LexLessCommonPrefix(Pad(a / 10, w - 1), [DigitChar(a % 10)], [DigitChar(b % 10)]);
    }
  }
}
