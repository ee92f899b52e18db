/**
 * The Kotlin string primitives the view-models rely on: `Char.isWhitespace`,
 * `String.isBlank`, `ifBlank`, `trim` and `contains(other, ignoreCase = true)`.
 * Whitespace is the exact set the JVM implementation of `isWhitespace` accepts;
 * case-insensitive comparison folds the ASCII letters only.
 */
module Text {
  import opened Data

  /** Kotlin's `Char.isWhitespace` on the JVM: `Character.isWhitespace(c) ||
      Character.isSpaceChar(c)`, i.e. the control characters 9-13 and 28-31
      together with every space, line and paragraph separator. */
  predicate IsWhitespace(c: char) {
    || ('\t' <= c <= '\r')
    || ('\U{1C}' <= c <= ' ')
    || c == '\U{A0}' || c == '\U{1680}'
    || ('\U{2000}' <= c <= '\U{200A}')
    || c == '\U{2028}' || c == '\U{2029}' || c == '\U{202F}' || c == '\U{205F}'
    || c == '\U{3000}'
  }

  /** `String.isBlank`: empty or whitespace only. */
  predicate IsBlank(s: string): (r: bool)
    ensures r <==> !HasVisibleChar(s)
    ensures s == [] ==> r
  {
    forall i :: 0 <= i < |s| ==> IsWhitespace(s[i])
  }

  /** Some character of `s` is not whitespace. */
  predicate HasVisibleChar(s: string) {
    exists i :: 0 <= i < |s| && !IsWhitespace(s[i])
  }

  /** `s.ifBlank { d }`. */
  function IfBlank(s: string, d: string): (r: string)
    ensures !IsBlank(s) ==> r == s
    ensures IsBlank(s) ==> r == d
  {
    if IsBlank(s) then d else s
  }

  /** `s.ifBlank { null }`, with `null` as `None`. */
  function NullIfBlank(s: string): (r: Option<string>)
    ensures r == None <==> IsBlank(s)
    ensures r != None ==> r.value == s
  {
    if IsBlank(s) then None else Some(s)
  }

  /** The leading-whitespace half of `trim`: a suffix of `s` that does not
      start with whitespace, everything dropped being whitespace. */
  function TrimStart(s: string): (r: string)
    ensures |r| <= |s| && r == s[|s| - |r|..]
    ensures forall i :: 0 <= i < |s| - |r| ==> IsWhitespace(s[i])
    ensures r != [] ==> !IsWhitespace(r[0])
  {
    if s != [] && IsWhitespace(s[0]) then TrimStart(s[1..]) else s
  }

  /** The trailing-whitespace half of `trim`: a prefix of `s` that does not
      end with whitespace, everything dropped being whitespace. */
  function TrimEnd(s: string): (r: string)
    ensures |r| <= |s| && r == s[..|r|]
    ensures forall i :: |r| <= i < |s| ==> IsWhitespace(s[i])
    ensures r != [] ==> !IsWhitespace(r[|r| - 1])
  {
    if s != [] && IsWhitespace(s[|s| - 1]) then TrimEnd(s[..|s| - 1]) else s
  }

  /** `String.trim()`, which in Kotlin strips `isWhitespace` characters from both ends. */
  function Trim(s: string): (r: string)
    ensures |r| <= |s|
    ensures r != [] ==> !IsWhitespace(r[0]) && !IsWhitespace(r[|r| - 1])
  {
    var t := TrimStart(s);
    var r := TrimEnd(t);
    assert r != [] ==> r[0] == t[0];
    r
  }

  /** `trim` keeps the contiguous slice of its input that starts at offset `a`,
      with no whitespace at either end, and everything it drops, before `a`
      and after the slice, is whitespace. These facts fix the result. */
  lemma {:induction false} TrimIsSlice(s: string) returns (a: int)
    ensures OccursAt(Trim(s), s, a)
    ensures Trim(s) != [] ==> !IsWhitespace(Trim(s)[0]) && !IsWhitespace(Trim(s)[|Trim(s)| - 1])
    ensures forall i :: 0 <= i < a ==> IsWhitespace(s[i])
    ensures forall i :: a + |Trim(s)| <= i < |s| ==> IsWhitespace(s[i])
  {
    var t := TrimStart(s);
    var r := TrimEnd(t);
    a := |s| - |t|;
    PrefixOfSuffix(s, a, r);
    assert Trim(s) == r;
  }

  /** A prefix `r` of the suffix `s[a..]` whose rest is whitespace: `r` sits at
      offset `a` of `s`, and what follows it in `s` is whitespace. */
  lemma PrefixOfSuffix(s: string, a: int, r: string)
    requires 0 <= a <= |s| && |r| <= |s| - a && r == s[a..][..|r|]
    requires forall j :: |r| <= j < |s| - a ==> IsWhitespace(s[a..][j])
    ensures OccursAt(r, s, a)
    ensures forall i :: a + |r| <= i < |s| ==> IsWhitespace(s[i])
  {
    forall i | a + |r| <= i < |s| ensures IsWhitespace(s[i]) {
      assert s[i] == s[a..][i - a];
    }
  }

  /** Any slice of `s` with those properties is `Trim(s)`. */
  lemma TrimUnique(s: string, r: string, a: int)
    requires OccursAt(r, s, a)
    requires r != [] ==> !IsWhitespace(r[0]) && !IsWhitespace(r[|r| - 1])
    requires forall i :: 0 <= i < a ==> IsWhitespace(s[i])
    requires forall i :: a + |r| <= i < |s| ==> IsWhitespace(s[i])
    ensures r == Trim(s)
  {
    if r == [] {
      assert IsBlank(s) by {
        forall i | 0 <= i < |s| ensures IsWhitespace(s[i]) {
          if i < a {} else {}
        }
      }
      BlankTrimsEmpty(s);
    } else {
      var t := Trim(s);
      var b := TrimIsSlice(s);
      assert s[a] == r[0];
      assert s[a + |r| - 1] == r[|r| - 1];
      VisibleSurvivesTrim(s, a);
      assert s[b] == t[0];
      assert s[b + |t| - 1] == t[|t| - 1];
      assert a == b;
      assert |r| == |t|;
      assert r == s[a..a + |r|];
    }
  }

  /** Trimming twice is trimming once. */
  lemma TrimIdempotent(s: string)
    ensures Trim(Trim(s)) == Trim(s)
  {
    var r := Trim(s);
    var _ := TrimIsSlice(s);
    assert TrimStart(r) == r;
    assert TrimEnd(r) == r;
  }

  /** A blank string trims to nothing. */
  lemma {:induction false} BlankTrimsEmpty(s: string)
    requires IsBlank(s)
    ensures TrimStart(s) == [] && Trim(s) == []
  {
    if s != [] {
      assert IsWhitespace(s[0]);
      assert IsBlank(s[1..]) by {
        forall i | 0 <= i < |s[1..]| ensures IsWhitespace(s[1..][i]) {
          assert s[1..][i] == s[i + 1];
        }
      }
      BlankTrimsEmpty(s[1..]);
    }
  }

  /** A string with a visible character at `i` keeps it when trimmed. */
  lemma VisibleSurvivesTrim(s: string, i: int)
    requires 0 <= i < |s| && !IsWhitespace(s[i])
    ensures Trim(s) != []
  {
    var t := TrimStart(s);
    var k := i - (|s| - |t|);
    assert 0 <= k < |t| && t[k] == s[i];
    var r := TrimEnd(t);
    assert k < |r|;
  }

  /** A string is blank exactly when trimming leaves nothing, and exactly when
      it has no visible character. */
  lemma BlankIffTrimEmpty(s: string)
    ensures IsBlank(s) <==> Trim(s) == []
    ensures IsBlank(s) <==> !HasVisibleChar(s)
  {
    if IsBlank(s) {
      BlankTrimsEmpty(s);
    } else {
      var i :| 0 <= i < |s| && !IsWhitespace(s[i]);
      VisibleSurvivesTrim(s, i);
    }
  }

  /** Blankness survives trimming, as the source's `trim` then `isBlank` relies on. */
  lemma TrimmedBlankIffBlank(s: string)
    ensures IsBlank(Trim(s)) <==> IsBlank(s)
  {
    BlankIffTrimEmpty(s);
    TrimIdempotent(s);
    BlankIffTrimEmpty(Trim(s));
  }

  /** `Char.uppercaseChar`, restricted to the ASCII letters. */
  function UppercaseChar(c: char): (r: char)
    ensures 'a' <= c <= 'z' ==> 'A' <= r <= 'Z' && r as int == c as int - 32
    ensures !('a' <= c <= 'z') ==> r == c
  {
    if 'a' <= c <= 'z' then (c as int - 32) as char else c
  }

  /** `Char.lowercaseChar`, restricted to the ASCII letters. */
  function LowercaseChar(c: char): (r: char)
    ensures 'A' <= c <= 'Z' ==> 'a' <= r <= 'z' && r as int == c as int + 32
    ensures !('A' <= c <= 'Z') ==> r == c
  {
    if 'A' <= c <= 'Z' then (c as int + 32) as char else c
  }

  /** Kotlin's `Char.equals(other, ignoreCase = true)`: equal as they are, or
      after upper-casing both, or after upper- then lower-casing both. */
  predicate CharEqualsIgnoreCase(a: char, b: char): (r: bool)
    ensures r <==> LowercaseChar(a) == LowercaseChar(b)
  {
    || a == b
    || UppercaseChar(a) == UppercaseChar(b)
    || LowercaseChar(UppercaseChar(a)) == LowercaseChar(UppercaseChar(b))
  }

  /** `q` matches `s` at offset `i`, character by character, ignoring case
      (Kotlin's `regionMatches(i, q, 0, |q|, ignoreCase = true)`). */
  predicate RegionMatchesIgnoreCase(s: string, i: int, q: string) {
    0 <= i && i + |q| <= |s| &&
    forall j :: 0 <= j < |q| ==> CharEqualsIgnoreCase(s[i + j], q[j])
  }

  /** `s.contains(q, ignoreCase = true)`: some offset of `s` matches `q`. */
  predicate ContainsIgnoreCase(s: string, q: string) {
    exists i :: 0 <= i <= |s| - |q| && RegionMatchesIgnoreCase(s, i, q)
  }

  /** Every character of `s` lower-cased. */
  function Lowered(s: string): (r: string)
    ensures |r| == |s|
    ensures forall i :: 0 <= i < |s| ==> r[i] == LowercaseChar(s[i])
  {
    seq(|s|, i requires 0 <= i < |s| => LowercaseChar(s[i]))
  }

  /** `p` occurs in `s` starting at offset `i`. */
  predicate OccursAt(p: string, s: string, i: int) {
    0 <= i && i + |p| <= |s| && s[i..i + |p|] == p
  }

  /** `p` is a contiguous piece of `s`. */
  predicate IsInfix(p: string, s: string) {
    exists i :: 0 <= i <= |s| - |p| && OccursAt(p, s, i)
  }

  lemma RegionMatchesIffOccurs(s: string, i: int, q: string)
    requires 0 <= i && i + |q| <= |s|
    ensures RegionMatchesIgnoreCase(s, i, q) <==> OccursAt(Lowered(q), Lowered(s), i)
  {
    var ls, lq := Lowered(s), Lowered(q);
    if RegionMatchesIgnoreCase(s, i, q) {
      forall j | 0 <= j < |q| ensures ls[i..i + |q|][j] == lq[j] {
        assert CharEqualsIgnoreCase(s[i + j], q[j]);
      }
      assert ls[i..i + |q|] == lq;
    }
    if OccursAt(lq, ls, i) {
      forall j | 0 <= j < |q| ensures CharEqualsIgnoreCase(s[i + j], q[j]) {
        assert ls[i..i + |q|][j] == lq[j];
      }
    }
  }

  /** Reference definition of the case-insensitive search: `q` lower-cased is
      a piece of `s` lower-cased. */
  lemma ContainsIgnoreCaseIffInfix(s: string, q: string)
    ensures ContainsIgnoreCase(s, q) <==> IsInfix(Lowered(q), Lowered(s))
  {
    if ContainsIgnoreCase(s, q) {
      var i :| 0 <= i <= |s| - |q| && RegionMatchesIgnoreCase(s, i, q);
      RegionMatchesIffOccurs(s, i, q);
    }
    if IsInfix(Lowered(q), Lowered(s)) {
      var i :| 0 <= i <= |s| - |q| && OccursAt(Lowered(q), Lowered(s), i);
      RegionMatchesIffOccurs(s, i, q);
    }
  }

  /** Lower-casing never turns a character into whitespace or back. */
  lemma LowercaseKeepsWhitespace(c: char)
    ensures IsWhitespace(LowercaseChar(c)) <==> IsWhitespace(c)
  {
  }

  /** Lower-casing commutes with trimming. */
  lemma {:induction false} TrimStartLowered(s: string)
    ensures TrimStart(Lowered(s)) == Lowered(TrimStart(s))
  {
    if s != [] {
      var l := Lowered(s);
      LowercaseKeepsWhitespace(s[0]);
      assert l[0] == LowercaseChar(s[0]);
      if IsWhitespace(s[0]) {
        assert l[1..] == Lowered(s[1..]);
        TrimStartLowered(s[1..]);
        assert TrimStart(l) == TrimStart(l[1..]);
      } else {
        assert TrimStart(l) == l;
      }
    }
  }

  lemma {:induction false} TrimEndLowered(s: string)
    ensures TrimEnd(Lowered(s)) == Lowered(TrimEnd(s))
  {
    if s != [] {
      var l := Lowered(s);
      var last := |s| - 1;
      LowercaseKeepsWhitespace(s[last]);
      assert l[last] == LowercaseChar(s[last]);
      if IsWhitespace(s[last]) {
        assert l[..last] == Lowered(s[..last]);
        TrimEndLowered(s[..last]);
        assert TrimEnd(l) == TrimEnd(l[..last]);
      } else {
        assert TrimEnd(l) == l;
      }
    }
  }

  lemma TrimLowered(s: string)
    ensures Trim(Lowered(s)) == Lowered(Trim(s))
    ensures IsBlank(Lowered(s)) <==> IsBlank(s)
  {
    TrimStartLowered(s);
    TrimEndLowered(TrimStart(s));
    forall i | 0 <= i < |s| ensures IsWhitespace(Lowered(s)[i]) <==> IsWhitespace(s[i]) {
      LowercaseKeepsWhitespace(s[i]);
    }
  }

  /** Lower-casing twice is lower-casing once. */
  lemma LoweredIdempotent(s: string)
    ensures Lowered(Lowered(s)) == Lowered(s)
  {
  }

  /** The case of the query does not change what it finds. */
  lemma ContainsLoweredQuery(s: string, q: string)
    ensures ContainsIgnoreCase(s, Lowered(q)) <==> ContainsIgnoreCase(s, q)
  {
    ContainsIgnoreCaseIffInfix(s, q);
    ContainsIgnoreCaseIffInfix(s, Lowered(q));
    LoweredIdempotent(q);
  }
}
