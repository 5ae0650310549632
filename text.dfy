/** String operations with the semantics the TypeScript, JavaScript and Python
    sources rely on. Strings are sequences of Unicode code points. */
module Text {

  datatype Option<+T> = None | Some(value: T)

  /* ---------------------------------------------------------------- case */

  /** `toLowerCase()` / `str.lower()`, restricted to ASCII letters. */
  function LowerChar(c: char): char
  {
    if 'A' <= c <= 'Z' then (c as int + 32) as char else c
  }

  predicate IsUpper(c: char) { 'A' <= c <= 'Z' }

  function Lower(s: string): (r: string)
    ensures |r| == |s|
    ensures forall i :: 0 <= i < |r| ==> !IsUpper(r[i])
    ensures forall i :: 0 <= i < |s| && !IsUpper(s[i]) ==> r[i] == s[i]
  {
    seq(|s|, i requires 0 <= i < |s| => LowerChar(s[i]))
  }

  /** Text without capitals is its own lower case. */
  lemma LowerOfLowercase(s: string)
    requires forall i :: 0 <= i < |s| ==> !IsUpper(s[i])
    ensures Lower(s) == s
  {
  }

  lemma LowerIdempotent(s: string)
    ensures Lower(Lower(s)) == Lower(s)
  {
  }

  lemma LowerConcat(a: string, b: string)
    ensures Lower(a + b) == Lower(a) + Lower(b)
  {
    assert Lower(a + b) == Lower(a) + Lower(b);
  }

  /** JavaScript's `\w`: ASCII letters, digits and underscore. */
  predicate IsWordChar(c: char)
  {
    ('a' <= c <= 'z') || ('A' <= c <= 'Z') || ('0' <= c <= '9') || c == '_'
  }

  /* ----------------------------------------------------- prefix, substring */

  predicate StartsWith(s: string, p: string)
  {
    |p| <= |s| && s[..|p|] == p
  }

  /** `s.includes(p)` / `p in s`. */
  predicate Contains(s: string, p: string)
    decreases |s|
  {
    StartsWith(s, p) || (|s| > 0 && Contains(s[1..], p))
  }

  lemma ContainsSelf(s: string)
    ensures Contains(s, s)
  {
  }

  lemma {:induction false} ContainsAt(s: string, p: string, i: nat)
    requires i + |p| <= |s| && s[i..i + |p|] == p
    ensures Contains(s, p)
  {
    if i > 0 {
      assert s[1..][i - 1..i - 1 + |p|] == p;
      ContainsAt(s[1..], p, i - 1);
    }
  }

  lemma {:induction false} ContainsWitness(s: string, p: string) returns (i: nat)
    requires Contains(s, p)
    ensures i + |p| <= |s| && s[i..i + |p|] == p
    decreases |s|
  {
    if StartsWith(s, p) {
      i := 0;
    } else {
      var j := ContainsWitness(s[1..], p);
      i := j + 1;
      assert s[i..i + |p|] == s[1..][j..j + |p|];
    }
  }

  /** Every character of a contained pattern occurs in the text. */
  lemma ContainsChar(s: string, p: string, k: nat)
    requires Contains(s, p) && k < |p|
    ensures p[k] in s
  {
    var i := ContainsWitness(s, p);
    assert s[i + k] == p[k];
  }

  lemma ContainsInExtension(a: string, s: string, b: string, p: string)
    requires Contains(s, p)
    ensures Contains(a + s + b, p)
  {
    var i := ContainsWitness(s, p);
    assert (a + s + b)[|a| + i..|a| + i + |p|] == s[i..i + |p|];
    ContainsAt(a + s + b, p, |a| + i);
  }

  /* -------------------------------------------------- global replacement */

  /** `s.replace(/pat/g, rep)` and Python's `s.replace(pat, rep)` for a
      literal, non-empty pattern: occurrences are found left to right and do
      not overlap. */
  function ReplaceAll(s: string, pat: string, rep: string): (r: string)
    requires |pat| > 0
    ensures |rep| <= |pat| ==> |r| <= |s|
    decreases |s|
  {
    if StartsWith(s, pat) then rep + ReplaceAll(s[|pat|..], pat, rep)
    else if s == [] then []
    else [s[0]] + ReplaceAll(s[1..], pat, rep)
  }

  /** Text without the pattern is left alone. */
  lemma {:induction false} ReplaceAbsent(s: string, pat: string, rep: string)
    requires |pat| > 0 && !Contains(s, pat)
    ensures ReplaceAll(s, pat, rep) == s
    decreases |s|
  {
    if s != [] {
      ReplaceAbsent(s[1..], pat, rep);
    }
  }

  /** Replacing a one-character pattern by a character that differs from
      it removes every occurrence. */
  lemma {:induction false} ReplaceCharRemoves(s: string, a: char, b: char)
    requires a != b
    ensures a !in ReplaceAll(s, [a], [b])
    decreases |s|
  {
    if s != [] {
      ReplaceCharRemoves(s[1..], a, b);
    }
  }

  /** After replacing the two-character pattern `xy` by a single character
      that is neither `x` nor `y`, the result holds no `xy`. */
  lemma {:induction false} ReplacePairRemoves(s: string, x: char, y: char, c: char)
    requires c != x && c != y
    ensures !Contains(ReplaceAll(s, [x, y], [c]), [x, y])
    decreases |s|
  {
    var r := ReplaceAll(s, [x, y], [c]);
    if StartsWith(s, [x, y]) {
      var t := ReplaceAll(s[2..], [x, y], [c]);
      ReplacePairRemoves(s[2..], x, y, c);
      assert r == [c] + t && r[0] == c;
      assert r[1..] == t;
    } else if s != [] {
      var t := ReplaceAll(s[1..], [x, y], [c]);
      ReplacePairRemoves(s[1..], x, y, c);
      assert r == [s[0]] + t;
      assert r[1..] == t;
      if s[1..] != [] {
        ReplaceHead(s[1..], x, y, c);
        assert t[0] == c || t[0] == s[1];
      }
      assert !StartsWith(r, [x, y]);
    }
  }

  /** The first character of a replacement result is either the replacement
      character or the first character of the input. */
  lemma ReplaceHead(s: string, x: char, y: char, c: char)
    requires s != []
    ensures ReplaceAll(s, [x, y], [c]) != []
    ensures var r := ReplaceAll(s, [x, y], [c]);
      if StartsWith(s, [x, y]) then r[0] == c else r[0] == s[0]
  {
  }

  /* -------------------------------------------------------- runs of a char */

  /** Characters that JavaScript's `.` never matches. */
  predicate IsLineTerminator(c: char)
  {
    c == '\n' || c == '\r' || c == '\U{2028}' || c == '\U{2029}'
  }

  /** `s.replace(/(.)\1+/g, '$1')`: every run of a repeated character
      (other than a line terminator) shrinks to one copy. */
  function CollapseRuns(s: string): (r: string)
    ensures |r| <= |s|
    ensures |s| > 0 ==> |r| > 0 && r[0] == s[0]
    decreases |s|
  {
    if |s| <= 1 then s
    else if s[0] == s[1] && !IsLineTerminator(s[0]) then CollapseRuns(s[1..])
    else [s[0]] + CollapseRuns(s[1..])
  }

  lemma {:induction false} CollapseRunsNoRepeat(s: string)
    ensures forall i :: 0 <= i < |CollapseRuns(s)| - 1 ==>
      CollapseRuns(s)[i] != CollapseRuns(s)[i + 1] || IsLineTerminator(CollapseRuns(s)[i])
    decreases |s|
  {
    if |s| > 1 {
      CollapseRunsNoRepeat(s[1..]);
    }
  }

  /* --------------------------------------------------------- whitespace */

  /** JavaScript's WhiteSpace and LineTerminator: what `\s` and `trim()` use. */
  predicate IsJsSpace(c: char)
  {
    ('\t' <= c <= '\r') || c == ' ' || c == '\U{00A0}' || c == '\U{1680}'
    || ('\U{2000}' <= c <= '\U{200A}') || c == '\U{2028}' || c == '\U{2029}'
    || c == '\U{202F}' || c == '\U{205F}' || c == '\U{3000}' || c == '\U{FEFF}'
  }

  /** Python's `str.isspace()`: what `str.strip()` removes. */
  predicate IsPySpace(c: char)
  {
    ('\t' <= c <= '\r') || ('\U{001C}' <= c <= '\U{001F}') || c == ' ' || c == '\U{0085}'
    || c == '\U{00A0}' || c == '\U{1680}' || ('\U{2000}' <= c <= '\U{200A}')
    || c == '\U{2028}' || c == '\U{2029}' || c == '\U{202F}' || c == '\U{205F}' || c == '\U{3000}'
  }

  function TrimLeft(s: string, ws: char -> bool): (r: string)
    ensures |r| <= |s| && r == s[|s| - |r|..]
    ensures r == [] || !ws(r[0])
    ensures forall i :: 0 <= i < |s| - |r| ==> ws(s[i])
    decreases |s|
  {
    if |s| > 0 && ws(s[0]) then TrimLeft(s[1..], ws) else s
  }

  function TrimRight(s: string, ws: char -> bool): (r: string)
    ensures |r| <= |s| && r == s[..|r|]
    ensures r == [] || !ws(r[|r| - 1])
    ensures forall i :: |r| <= i < |s| ==> ws(s[i])
    decreases |s|
  {
    if |s| > 0 && ws(s[|s| - 1]) then TrimRight(s[..|s| - 1], ws) else s
  }

  /** `s.trim()` in JavaScript. */
  function JsTrim(s: string): (r: string)
    ensures r == [] || (!IsJsSpace(r[0]) && !IsJsSpace(r[|r| - 1]))
    ensures |r| <= |s|
  {
    TrimRight(TrimLeft(s, IsJsSpace), IsJsSpace)
  }

  /** The trimmed text is a slice of the input. */
  lemma JsTrimSlice(s: string) returns (i: nat, j: nat)
    ensures i <= j <= |s| && JsTrim(s) == s[i..j]
  {
    var l := TrimLeft(s, IsJsSpace);
    var r := TrimRight(l, IsJsSpace);
    i, j := |s| - |l|, |s| - |l| + |r|;
    assert l == s[i..];
    assert r == l[..|r|];
    assert s[i..][..|r|] == s[i..j];
  }

  /** A text that does not start or end with trimmed characters trims to
      itself. */
  lemma TrimUnspaced(s: string, ws: char -> bool)
    requires s == [] || (!ws(s[0]) && !ws(s[|s| - 1]))
    ensures TrimRight(TrimLeft(s, ws), ws) == s
  {
  }

  /** A text with no white space at either end trims to itself. */
  lemma JsTrimUnspaced(s: string)
    requires s == [] || (!IsJsSpace(s[0]) && !IsJsSpace(s[|s| - 1]))
    ensures JsTrim(s) == s
  {
    TrimUnspaced(s, IsJsSpace);
  }

  /** Trimming twice is trimming once. */
  lemma JsTrimIdempotent(s: string)
    ensures JsTrim(JsTrim(s)) == JsTrim(s)
  {
    JsTrimUnspaced(JsTrim(s));
  }

  /** `s.strip()` in Python. */
  function PyStrip(s: string): (r: string)
    ensures r == [] || (!IsPySpace(r[0]) && !IsPySpace(r[|r| - 1]))
    ensures |r| <= |s|
  {
    TrimRight(TrimLeft(s, IsPySpace), IsPySpace)
  }

  /** The trimmed text is a slice of the input. */
  lemma PyStripSlice(s: string) returns (i: nat, j: nat)
    ensures i <= j <= |s| && PyStrip(s) == s[i..j]
  {
    var l := TrimLeft(s, IsPySpace);
    var r := TrimRight(l, IsPySpace);
    i, j := |s| - |l|, |s| - |l| + |r|;
    assert l == s[i..];
    assert r == l[..|r|];
    assert s[i..][..|r|] == s[i..j];
  }

  /** The index of the first character at or after `i` that is not
      whitespace: where a greedy `\s*` starting at `i` stops. */
  function SkipJsSpace(s: string, i: nat): (j: nat)
    requires i <= |s|
    ensures i <= j <= |s|
    ensures forall k :: i <= k < j ==> IsJsSpace(s[k])
    ensures j == |s| || !IsJsSpace(s[j])
    decreases |s| - i
  {
    if i < |s| && IsJsSpace(s[i]) then SkipJsSpace(s, i + 1) else i
  }

  /* ------------------------------------------ duplicate-free sequences */

  /** A JavaScript `Set` keeps insertion order; it is modelled as a sequence
      without duplicates. */
  predicate NoDup<T(==)>(s: seq<T>)
  {
    forall i, j :: 0 <= i < j < |s| ==> s[i] != s[j]
  }

  /** A sequence headed by `x` is duplicate-free exactly when its tail is and
      does not hold `x`. */
  lemma NoDupCons<T>(x: T, t: seq<T>)
    ensures NoDup([x] + t) <==> NoDup(t) && x !in t
  {
    var s := [x] + t;
    assert forall i :: 0 <= i < |t| ==> s[i + 1] == t[i];
    if NoDup(s) {
      forall i, j | 0 <= i < j < |t|
        ensures t[i] != t[j]
      {
        assert s[i + 1] != s[j + 1];
      }
      forall k | 0 <= k < |t|
        ensures t[k] != x
      {
        assert s[0] != s[k + 1];
      }
    }
    if NoDup(t) && x !in t {
      forall i, j | 0 <= i < j < |s|
        ensures s[i] != s[j]
      {
        if i == 0 {
          assert s[j] == t[j - 1];
        }
      }
    }
  }

  /** An element missing from a prefix sits at or after the prefix's end. */
  lemma PrefixIndexNotIn<T>(s: seq<T>, k: nat, j: nat)
    requires k <= |s| && j < |s| && s[j] !in s[..k]
    ensures k <= j
  {
    assert forall i :: 0 <= i < k ==> s[..k][i] == s[i];
  }

  /** `set.add(x)`. */
  function Add<T(==,!new)>(s: seq<T>, x: T): (r: seq<T>)
    ensures NoDup(s) ==> NoDup(r)
    ensures forall y :: y in r <==> y in s || y == x
    ensures s <= r && |r| <= |s| + 1
  {
    if x in s then s else s + [x]
  }

  /** Adding every element of `xs` in order. */
  function AddAll<T(==,!new)>(s: seq<T>, xs: seq<T>): (r: seq<T>)
    ensures NoDup(s) ==> NoDup(r)
    ensures forall y :: y in r <==> y in s || y in xs
    ensures s <= r && |r| <= |s| + |xs|
    decreases |xs|
  {
    if xs == [] then s else AddAll(Add(s, xs[0]), xs[1..])
  }

  lemma {:induction false} AddAllSnoc<T(!new)>(s: seq<T>, xs: seq<T>, x: T)
    ensures AddAll(s, xs + [x]) == Add(AddAll(s, xs), x)
    decreases |xs|
  {
    if xs == [] {
      assert [] + [x] == [x];
    } else {
      assert (xs + [x])[1..] == xs[1..] + [x];
      AddAllSnoc(Add(s, xs[0]), xs[1..], x);
    }
  }

  lemma {:induction false} AddAllAppend<T(!new)>(s: seq<T>, xs: seq<T>, ys: seq<T>)
    ensures AddAll(s, xs + ys) == AddAll(AddAll(s, xs), ys)
    decreases |xs|
  {
    if xs == [] {
      assert xs + ys == ys;
    } else {
      assert (xs + ys)[1..] == xs[1..] + ys;
      AddAllAppend(Add(s, xs[0]), xs[1..], ys);
    }
  }

  /** `for (const x of xs) set.add(x)`. */
  method AddEach<T(==,!new)>(s: seq<T>, xs: seq<T>) returns (r: seq<T>)
    ensures r == AddAll(s, xs)
  {
    r := s;
    for i := 0 to |xs|
      invariant r == AddAll(s, xs[..i])
    {
      assert xs[..i + 1] == xs[..i] + [xs[i]];
      AddAllSnoc(s, xs[..i], xs[i]);
      r := Add(r, xs[i]);
    }
    assert xs[..|xs|] == xs;
  }

  /** `Array.from(new Set(xs))`. */
  function Distinct<T(==,!new)>(xs: seq<T>): (r: seq<T>)
    ensures NoDup(r)
    ensures forall y :: y in r <==> y in xs
    ensures |r| <= |xs|
  {
    AddAll([], xs)
  }

  lemma {:induction false} DistinctOfNoDup<T(!new)>(xs: seq<T>)
    requires NoDup(xs)
    ensures Distinct(xs) == xs
  {
    AddAllNoDupSuffix([], xs);
  }

  lemma {:induction false} AddAllNoDupSuffix<T(!new)>(s: seq<T>, xs: seq<T>)
    requires NoDup(s + xs)
    ensures AddAll(s, xs) == s + xs
    decreases |xs|
  {
    if xs != [] {
      forall k | 0 <= k < |s|
        ensures s[k] != xs[0]
      {
        assert (s + xs)[k] == s[k] && (s + xs)[|s|] == xs[0];
      }
      assert Add(s, xs[0]) == s + [xs[0]];
      assert s + [xs[0]] + xs[1..] == s + xs;
      AddAllNoDupSuffix(s + [xs[0]], xs[1..]);
    }
  }

  /** Elements of `s` satisfying `p`, in order (`Array.prototype.filter`). */
  function Filter<T(!new)>(s: seq<T>, p: T -> bool): (r: seq<T>)
    ensures |r| <= |s|
    ensures forall y :: y in r <==> y in s && p(y)
    decreases |s|
  {
    if s == [] then []
    else if p(s[0]) then [s[0]] + Filter(s[1..], p)
    else Filter(s[1..], p)
  }

  lemma {:induction false} FilterNoDup<T(!new)>(s: seq<T>, p: T -> bool)
    requires NoDup(s)
    ensures NoDup(Filter(s, p))
    decreases |s|
  {
    if s != [] {
      FilterNoDup(s[1..], p);
      forall k | 0 <= k < |s[1..]|
        ensures s[1..][k] != s[0]
      {
        assert s[1..][k] == s[k + 1];
      }
    }
  }

  /** `s.slice(0, n)`. */
  function Take<T>(s: seq<T>, n: nat): (r: seq<T>)
    ensures |r| == if n < |s| then n else |s|
    ensures r <= s
  {
    if n < |s| then s[..n] else s
  }

  lemma TakeNoDup<T>(s: seq<T>, n: nat)
    requires NoDup(s)
    ensures NoDup(Take(s, n))
  {
  }

  /* ---------------------------------------------------------- numbers */

  function DigitChar(d: nat): char
    requires d < 10
  {
    ('0' as int + d) as char
  }

  /** The decimal text of a natural number, as `String(n)` writes it. */
  function NatToString(n: nat): (r: string)
    ensures |r| >= 1
    ensures forall i :: 0 <= i < |r| ==> '0' <= r[i] <= '9'
    ensures n < 10 ==> |r| == 1
    ensures 10 <= n < 100 ==> |r| == 2
    decreases n
  {
    if n < 10 then [DigitChar(n)] else NatToString(n / 10) + [DigitChar(n % 10)]
  }

  /** The decimal text of an integer, with a leading `-` when negative. */
  function IntToString(n: int): (r: string)
    ensures |r| >= 1
    ensures n < 0 <==> r[0] == '-'
  {
    if n < 0 then "-" + NatToString(-n) else NatToString(n)
  }

  /** `String(n).padStart(2, '0')`. */
  function PadTwo(n: nat): (r: string)
    ensures n < 100 ==> |r| == 2
    ensures forall i :: 0 <= i < |r| ==> '0' <= r[i] <= '9'
  {
    var d := NatToString(n);
    if |d| < 2 then ['0'] + d else d
  }
}
