/**
 * The Python built-ins the quiz parser is made of: `pat in s`, `s.split(sep)`,
 * `s.replace(pat, repl)`, `s.strip()`, `sep.join(parts)` and list indexing
 * `xs[i]`, whose IndexError is reported as `None`.
 */
module PyStr {
  import opened Wrappers

  /** Python's `str.isspace()` for one character, as a fixed set of code points. */
  predicate IsSpace(c: char) {
    var n := c as int;
    || (0x09 <= n <= 0x0D)
    || (0x1C <= n <= 0x20)
    || n == 0x85
    || n == 0xA0
    || n == 0x1680
    || (0x2000 <= n <= 0x200A)
    || n == 0x2028
    || n == 0x2029
    || n == 0x202F
    || n == 0x205F
    || n == 0x3000
  }

  predicate AllSpace(s: string) {
    forall k :: 0 <= k < |s| ==> IsSpace(s[k])
  }

  /** `pat` occurs in `s` starting at index `i`. */
  predicate OccursAt(s: string, pat: string, i: int) {
    0 <= i && i + |pat| <= |s| && s[i..i + |pat|] == pat
  }

  /** Python's `s.find(pat)`: the first occurrence of `pat`, or `None` for -1. */
  function Find(s: string, pat: string): (r: Option<nat>)
    requires pat != []
    ensures r.Some? ==> r.value + |pat| <= |s|
    decreases |s|
  {
    if |s| < |pat| then None
    else if pat <= s then Some(0)
    else match Find(s[1..], pat)
      case None => None
      case Some(i) => Some(i + 1)
  }

  lemma SliceOfSlice(s: string, lo: nat, hi: nat, a: nat, b: nat)
    requires lo <= hi <= |s| && a <= b <= hi - lo
    ensures s[lo..hi][a..b] == s[lo + a..lo + b]
  {
    assert forall k :: 0 <= k < b - a ==> s[lo..hi][a..b][k] == s[lo + a..lo + b][k];
  }

  /** An occurrence past index 0 of `s` is one of `s[1..]`, one place earlier. */
  lemma ShiftOccurrence(s: string, pat: string)
    requires s != []
    ensures forall j :: 1 <= j ==> (OccursAt(s, pat, j) <==> OccursAt(s[1..], pat, j - 1))
  {
    forall j | 1 <= j
      ensures OccursAt(s, pat, j) <==> OccursAt(s[1..], pat, j - 1)
    {
      if j + |pat| <= |s| {
        SliceOfSlice(s, 1, |s|, j - 1, j - 1 + |pat|);
      }
    }
  }

  /** `Find` gives the first occurrence, and `None` only when there is none. */
  lemma {:induction false} FindSpec(s: string, pat: string)
    requires pat != []
    ensures Find(s, pat).Some? ==> OccursAt(s, pat, Find(s, pat).value)
    ensures Find(s, pat).Some? ==> forall j :: 0 <= j < Find(s, pat).value ==> !OccursAt(s, pat, j)
    ensures Find(s, pat).None? ==> forall j :: !OccursAt(s, pat, j)
    decreases |s|
  {
    if |s| < |pat| {
    } else if pat <= s {
      assert s[0..|pat|] == pat;
    } else {
      assert s[0..|pat|] != pat;
      FindSpec(s[1..], pat);
      ShiftOccurrence(s, pat);
      match Find(s[1..], pat)
      case None =>
        forall j ensures !OccursAt(s, pat, j) {
          if j >= 1 {
            assert !OccursAt(s[1..], pat, j - 1);
          }
        }
      case Some(i) =>
        assert OccursAt(s[1..], pat, i);
        forall j | 0 <= j < i + 1 ensures !OccursAt(s, pat, j) {
          if j >= 1 {
            assert !OccursAt(s[1..], pat, j - 1);
          }
        }
    }
  }

  /** Python's `pat in s`. */
  predicate Contains(s: string, pat: string)
    requires pat != []
    ensures Contains(s, pat) ==> |pat| <= |s|
  {
    Find(s, pat).Some?
  }

  /** `pat in s` holds exactly when `pat` occurs somewhere in `s`. */
  lemma ContainsSpec(s: string, pat: string)
    requires pat != []
    ensures Contains(s, pat) <==> exists i :: OccursAt(s, pat, i)
  {
    FindSpec(s, pat);
  }

  /** Python's `xs[i]` for a non-negative index; an IndexError becomes `None`. */
  function Index<T>(xs: seq<T>, i: nat): (r: Option<T>)
    ensures r.Some? <==> i < |xs|
    ensures r.Some? ==> r.value == xs[i]
  {
    if i < |xs| then Some(xs[i]) else None
  }

  /**
   * Python's `s.split(sep)` for a non-empty separator: cut at every
   * non-overlapping occurrence, scanning left to right.
   */
  function Split(s: string, sep: string): (r: seq<string>)
    requires sep != []
    ensures |r| >= 1
    ensures |r| >= 2 <==> Contains(s, sep)
    decreases |s|
  {
    match Find(s, sep)
    case None => [s]
    case Some(i) => [s[..i]] + Split(s[i + |sep|..], sep)
  }

  /** Python's `sep.join(parts)`. */
  function Join(parts: seq<string>, sep: string): (r: string)
    ensures parts != [] ==> parts[0] <= r
    ensures |parts| >= 2 ==> parts[0] + sep <= r
  {
    if |parts| == 0 then ""
    else if |parts| == 1 then parts[0]
    else parts[0] + sep + Join(parts[1..], sep)
  }

  /**
   * Python's `s.replace(pat, repl)` for a non-empty `pat`: every
   * non-overlapping occurrence, left to right, is replaced; the text that
   * results is not scanned again, so it may hold new occurrences.
   */
  function Replace(s: string, pat: string, repl: string): (r: string)
    requires pat != []
    ensures |r| == |s| + (|Split(s, pat)| - 1) * (|repl| - |pat|)
    decreases |s|
  {
    match Find(s, pat)
    case None => s
    case Some(i) =>
      var rest := s[i + |pat|..];
      SplitCountAfterFirst(s, pat, i);
      ReplaceLengthStep(i, |pat|, |repl|, |rest|, |Split(rest, pat)|, |Split(s, pat)|);
      s[..i] + repl + Replace(rest, pat, repl)
  }

  /** The first separator adds one piece to the split of the rest. */
  lemma SplitCountAfterFirst(s: string, pat: string, i: nat)
    requires pat != [] && Find(s, pat) == Some(i)
    ensures i + |pat| <= |s|
    ensures |Split(s, pat)| == 1 + |Split(s[i + |pat|..], pat)|
  {
  }


  /** One replaced occurrence adds `q - p` characters to the length of the rest. */
  lemma ReplaceLengthStep(i: int, p: int, q: int, m: int, k: int, n: int)
    requires n == 1 + k
    ensures i + q + (m + (k - 1) * (q - p)) == (i + p + m) + (n - 1) * (q - p)
  {
    assert (k - 1) * (q - p) == k * (q - p) - (q - p);
  }

  /** Python's `s.lstrip()`: drops leading whitespace. */
  function LStrip(s: string): (r: string)
    ensures |r| <= |s|
    ensures r == [] || !IsSpace(r[0])
  {
    if s != [] && IsSpace(s[0]) then LStrip(s[1..]) else s
  }

  /** Python's `s.rstrip()`: drops trailing whitespace. */
  function RStrip(s: string): (r: string)
    ensures |r| <= |s|
    ensures r == [] || !IsSpace(r[|r| - 1])
  {
    if s != [] && IsSpace(s[|s| - 1]) then RStrip(s[..|s| - 1]) else s
  }

  /** `lstrip()` removes a whitespace prefix and stops at the first other character. */
  lemma {:induction false} LStripSpec(s: string)
    ensures var r := LStrip(s);
      && |r| <= |s| && r == s[|s| - |r|..]
      && AllSpace(s[..|s| - |r|])
      && (r == [] || !IsSpace(r[0]))
  {
    if s != [] && IsSpace(s[0]) {
      LStripSpec(s[1..]);
      var r := LStrip(s);
      assert s[1..][|s| - 1 - |r|..] == s[|s| - |r|..];
      assert s[..|s| - |r|] == [s[0]] + s[1..][..|s| - 1 - |r|];
    }
  }

  /** `rstrip()` removes a whitespace suffix and stops at the last other character. */
  lemma {:induction false} RStripSpec(s: string)
    ensures var r := RStrip(s);
      && |r| <= |s| && r == s[..|r|]
      && AllSpace(s[|r|..])
      && (r == [] || !IsSpace(r[|r| - 1]))
  {
    if s != [] && IsSpace(s[|s| - 1]) {
      RStripSpec(s[..|s| - 1]);
      var r := RStrip(s);
      assert s[..|s| - 1][..|r|] == s[..|r|];
      assert s[|r|..] == s[..|s| - 1][|r|..] + [s[|s| - 1]];
    }
  }

  /** Python's `s.strip()`: the text between the leading and the trailing whitespace. */
  function Strip(s: string): (r: string)
    ensures |r| <= |s|
    ensures r == [] || (!IsSpace(r[0]) && !IsSpace(r[|r| - 1]))
  {
    LStripSpec(s);
    RStripSpec(LStrip(s));
    RStrip(LStrip(s))
  }

  // ---------------------------------------------------------------------
  // Occurrences inside slices

  lemma OccursInSlice(s: string, lo: nat, hi: nat, pat: string, j: int)
    requires lo <= hi <= |s|
    requires OccursAt(s[lo..hi], pat, j)
    ensures OccursAt(s, pat, lo + j)
  {
    SliceOfSlice(s, lo, hi, j, j + |pat|);
  }

  /** A marker found in a slice of `s` is found in `s`. */
  lemma ContainsSlice(s: string, lo: nat, hi: nat, pat: string)
    requires pat != []
    requires lo <= hi <= |s|
    requires Contains(s[lo..hi], pat)
    ensures Contains(s, pat)
  {
    FindSpec(s[lo..hi], pat);
    var j := Find(s[lo..hi], pat).value;
    OccursInSlice(s, lo, hi, pat, j);
    FindSpec(s, pat);
  }

  /** `strip()` never produces a marker its input lacks. */
  lemma ContainsStrip(s: string, pat: string)
    requires pat != []
    requires Contains(Strip(s), pat)
    ensures Contains(s, pat)
  {
    var l := LStrip(s);
    var m := RStrip(l);
    LStripSpec(s);
    RStripSpec(l);
    assert m == l[0..|m|];
    ContainsSlice(l, 0, |m|, pat);
    assert l == s[|s| - |l|..|s|];
    ContainsSlice(s, |s| - |l|, |s|, pat);
  }

  /** The same, read the other way: stripping a text without the marker leaves none. */
  lemma StripLacks(s: string, pat: string)
    requires pat != []
    requires !Contains(s, pat)
    ensures !Contains(Strip(s), pat)
  {
    if Contains(Strip(s), pat) {
      ContainsStrip(s, pat);
    }
  }

  /** `replace()` leaves a string without the pattern unchanged. */
  lemma ReplaceAbsent(s: string, pat: string, repl: string)
    requires pat != []
    requires !Contains(s, pat)
    ensures Replace(s, pat, repl) == s
  {
  }

  // ---------------------------------------------------------------------
  // split: its pieces, its inverse, and what replace is in its terms

  /** Joining the pieces of a split with the same separator gives back the string. */
  lemma {:induction false} SplitJoin(s: string, sep: string)
    requires sep != []
    ensures Join(Split(s, sep), sep) == s
    decreases |s|
  {
    match Find(s, sep)
    case None =>
    case Some(i) =>
      var rest := s[i + |sep|..];
      FindSpec(s, sep);
      assert s[i..i + |sep|] == sep;
      SplitJoin(rest, sep);
      assert Split(s, sep) == [s[..i]] + Split(rest, sep);
      JoinCons(s[..i], Split(rest, sep), sep);
      assert s == s[..i] + sep + rest;
  }

  /** No piece of a split contains the separator. */
  lemma {:induction false} SplitPiecesFree(s: string, sep: string)
    requires sep != []
    ensures forall k :: 0 <= k < |Split(s, sep)| ==> !Contains(Split(s, sep)[k], sep)
    decreases |s|
  {
    match Find(s, sep)
    case None =>
    case Some(i) =>
      var rest := s[i + |sep|..];
      SplitPiecesFree(rest, sep);
      FindSpec(s, sep);
      if Contains(s[..i], sep) {
        FindSpec(s[..i], sep);
        var j := Find(s[..i], sep).value;
        OccursInSlice(s, 0, i, sep, j);
        assert false;
      }
      assert Split(s, sep) == [s[..i]] + Split(rest, sep);
  }

  /** Every piece of a split is a slice of the string, so it holds no marker the string lacks. */
  lemma {:induction false} SplitPieceContains(s: string, sep: string, k: nat, pat: string)
    requires sep != [] && pat != []
    requires k < |Split(s, sep)|
    requires Contains(Split(s, sep)[k], pat)
    ensures Contains(s, pat)
    decreases |s|
  {
    match Find(s, sep)
    case None =>
    case Some(i) =>
      var rest := s[i + |sep|..];
      var ps := Split(s, sep);
      assert ps == [s[..i]] + Split(rest, sep);
      if k == 0 {
        assert ps[0] == s[0..i];
        ContainsSlice(s, 0, i, pat);
      } else {
        assert ps[k] == Split(rest, sep)[k - 1];
        SplitPieceContains(rest, sep, k - 1, pat);
        assert rest == s[i + |sep|..|s|];
        ContainsSlice(s, i + |sep|, |s|, pat);
      }
  }

  /**
   * The second piece of a split is the text between the first separator and
   * the next one, or the end of the string.
   */
  lemma SplitSecondPiece(s: string, sep: string)
    requires sep != []
    requires Contains(s, sep)
    ensures var ps := Split(s, sep);
      var upTo := ps[0] + sep + ps[1];
      && upTo <= s
      && (upTo == s || sep <= s[|upTo|..])
      && !Contains(ps[0], sep)
      && !Contains(ps[1], sep)
  {
    var ps := Split(s, sep);
    SplitJoin(s, sep);
    SplitPiecesFree(s, sep);
    var upTo := ps[0] + sep + ps[1];
    JoinFirstTwo(ps, sep);
  }

  lemma JoinFirstTwo(ps: seq<string>, sep: string)
    requires |ps| >= 2
    ensures |ps| == 2 ==> Join(ps, sep) == ps[0] + sep + ps[1]
    ensures |ps| > 2 ==> Join(ps, sep) == (ps[0] + sep + ps[1]) + (sep + Join(ps[2..], sep))
  {
    assert ps[1..][1..] == ps[2..];
    if |ps| > 2 {
      Regroup(ps[0], sep, ps[1], sep, Join(ps[2..], sep));
    }
  }

  lemma JoinThree(a: string, b: string, c: string, sep: string)
    ensures Join([a, b, c], sep) == a + sep + b + sep + c
  {
    JoinFirstTwo([a, b, c], sep);
    assert [a, b, c][2..] == [c];
  }

  lemma Regroup(a: string, b: string, c: string, d: string, e: string)
    ensures a + b + (c + d + e) == (a + b + c) + (d + e)
  {
  }

  /** When the first separator of `a + sep + b` is the one after `a`, the split starts with `a`. */
  lemma SplitFirst(a: string, sep: string, b: string)
    requires sep != []
    requires Find(a + sep + b, sep) == Some(|a|)
    ensures Split(a + sep + b, sep) == [a] + Split(b, sep)
  {
    var s := a + sep + b;
    assert s[..|a|] == a;
    assert s[|a| + |sep|..] == b;
  }

  /** `Find` returns exactly the first occurrence. */
  lemma FindIs(s: string, pat: string, i: nat)
    requires pat != []
    requires OccursAt(s, pat, i)
    requires forall j :: 0 <= j < i ==> !OccursAt(s, pat, j)
    ensures Find(s, pat) == Some(i)
  {
    FindSpec(s, pat);
  }

  /** A separator that first occurs right after `a` in `a + sep` still does so whatever follows. */
  lemma FindAfterPrefix(a: string, sep: string, b: string)
    requires sep != []
    requires Find(a + sep, sep) == Some(|a|)
    ensures Find(a + sep + b, sep) == Some(|a|)
  {
    var s := a + sep + b;
    assert s[|a|..|a| + |sep|] == sep;
    FindSpec(a + sep, sep);
    forall j | 0 <= j < |a| ensures !OccursAt(s, sep, j) {
      if OccursAt(s, sep, j) {
        assert s[j..j + |sep|] == (a + sep)[j..j + |sep|];
        assert OccursAt(a + sep, sep, j);
      }
    }
    FindIs(s, sep, |a|);
  }

  /** A one-character separator missing from `a` is first found right after `a`. */
  lemma FindSingleAfter(a: string, sep: string)
    requires |sep| == 1
    requires !Contains(a, sep)
    ensures Find(a + sep, sep) == Some(|a|)
  {
    var s := a + sep;
    assert s[|a|..|a| + 1] == sep;
    forall j | 0 <= j < |a| ensures !OccursAt(s, sep, j) {
      assert s[j..j + 1] == a[j..j + 1];
      FindSpec(a, sep);
      assert !OccursAt(a, sep, j);
    }
    FindIs(s, sep, |a|);
  }

  /**
   * Splitting a join gives back the pieces, provided each piece but the last
   * is followed by its own separator first, and the last holds none.
   */
  lemma {:induction false} SplitOfJoin(ps: seq<string>, sep: string)
    requires sep != [] && ps != []
    requires forall k :: 0 <= k < |ps| - 1 ==> Find(ps[k] + sep, sep) == Some(|ps[k]|)
    requires !Contains(ps[|ps| - 1], sep)
    ensures Split(Join(ps, sep), sep) == ps
    decreases |ps|
  {
    if |ps| > 1 {
      SplitOfJoin(ps[1..], sep);
      FindAfterPrefix(ps[0], sep, Join(ps[1..], sep));
      SplitFirst(ps[0], sep, Join(ps[1..], sep));
      assert ps == [ps[0]] + ps[1..];
    }
  }

  /** A string without the character `c` has `c` at no index. */
  lemma NoCharAnywhere(x: string, c: char)
    requires !Contains(x, [c])
    ensures forall i :: 0 <= i < |x| ==> x[i] != c
  {
    FindSpec(x, [c]);
    forall i | 0 <= i < |x| ensures x[i] != c {
      assert x[i] == c ==> x[i..i + 1] == [c];
      assert !OccursAt(x, [c], i);
    }
  }

  /**
   * A prefix none of whose characters starts `pat` adds no occurrence of it:
   * `prefix + a` holds `pat` only if `a` does.
   */
  lemma NoMatchAfterPrefix(prefix: string, a: string, pat: string)
    requires pat != []
    requires forall i :: 0 <= i < |prefix| ==> prefix[i] != pat[0]
    requires !Contains(a, pat)
    ensures !Contains(prefix + a, pat)
  {
    var s := prefix + a;
    FindSpec(a, pat);
    FindSpec(s, pat);
    forall j | 0 <= j && j + |pat| <= |s| ensures !OccursAt(s, pat, j) {
      if j < |prefix| {
        assert s[j..j + |pat|][0] == prefix[j];
      } else {
        assert s[|prefix|..] == a;
        SliceOfSlice(s, |prefix|, |s|, j - |prefix|, j - |prefix| + |pat|);
        assert !OccursAt(a, pat, j - |prefix|);
      }
    }
  }

  /** `replace(pat, repl)` is `repl.join(s.split(pat))`. */
  lemma {:induction false} ReplaceIsSplitJoin(s: string, pat: string, repl: string)
    requires pat != []
    ensures Replace(s, pat, repl) == Join(Split(s, pat), repl)
    decreases |s|
  {
    match Find(s, pat)
    case None =>
    case Some(i) =>
      var rest := s[i + |pat|..];
      ReplaceIsSplitJoin(rest, pat, repl);
      JoinCons(s[..i], Split(rest, pat), repl);
  }

  /** Joining a non-empty tail after a first piece puts one separator between them. */
  lemma JoinCons(x: string, ys: seq<string>, sep: string)
    requires ys != []
    ensures Join([x] + ys, sep) == x + sep + Join(ys, sep)
  {
    assert ([x] + ys)[1..] == ys;
  }

  // ---------------------------------------------------------------------
  // strip: its defining property

  lemma {:induction false} LStripSpacePrefix(a: string, m: string)
    requires AllSpace(a)
    requires m == [] || !IsSpace(m[0])
    ensures LStrip(a + m) == m
    decreases |a|
  {
    if a != [] {
      assert (a + m)[1..] == a[1..] + m;
      LStripSpacePrefix(a[1..], m);
    }
  }

  lemma {:induction false} RStripSpaceSuffix(m: string, b: string)
    requires AllSpace(b)
    requires m == [] || !IsSpace(m[|m| - 1])
    ensures RStrip(m + b) == m
    decreases |b|
  {
    if b != [] {
      assert (m + b)[..|m + b| - 1] == m + b[..|b| - 1];
      RStripSpaceSuffix(m, b[..|b| - 1]);
    }
  }

  /**
   * `strip()` is characterised by its result: whatever is left between a
   * whitespace prefix and a whitespace suffix, provided it neither starts nor
   * ends with whitespace.
   */
  lemma StripSurrounded(a: string, m: string, b: string)
    requires AllSpace(a) && AllSpace(b)
    requires m == [] || (!IsSpace(m[0]) && !IsSpace(m[|m| - 1]))
    ensures Strip(a + m + b) == m
  {
    if m == [] {
      assert AllSpace(a + b);
      LStripSpacePrefix(a + b, []);
      assert a + m + b == (a + b) + [];
    } else {
      assert a + m + b == a + (m + b);
      LStripSpacePrefix(a, m + b);
      RStripSpaceSuffix(m, b);
    }
  }

  /** `strip()` is idempotent. */
  lemma StripIdempotent(s: string)
    ensures Strip(Strip(s)) == Strip(s)
  {
    var m := Strip(s);
    LStripSpec(s);
    RStripSpec(LStrip(s));
    assert m == [] + m + [];
    StripSurrounded([], m, []);
  }

  // ---------------------------------------------------------------------
  // Occurrences in concrete strings, found by scanning adjacent characters

  /** Characters `x` and `y` stand side by side at index `j` of `s`. */
  predicate PairAt(s: string, j: int, x: char, y: char) {
    0 <= j && j + 1 < |s| && s[j] == x && s[j + 1] == y
  }

  /** No index before `i` where the first two characters of `pat` stand side by side starts `pat`. */
  lemma NoOccurrenceBefore(s: string, pat: string, i: int)
    requires |pat| >= 2
    requires forall j :: 0 <= j < i ==> !PairAt(s, j, pat[0], pat[1])
    ensures forall j :: 0 <= j < i ==> !OccursAt(s, pat, j)
  {
    forall j | 0 <= j < i
      ensures !OccursAt(s, pat, j)
    {
      if j + |pat| <= |s| {
        assert !PairAt(s, j, pat[0], pat[1]);
        assert s[j..j + |pat|][0] == s[j] && s[j..j + |pat|][1] == s[j + 1];
      }
    }
  }

  /** An occurrence at `i` whose two leading characters appear together nowhere before is the first. */
  lemma FindByPair(s: string, pat: string, i: nat)
    requires |pat| >= 2
    requires OccursAt(s, pat, i)
    requires forall j :: 0 <= j < i ==> !PairAt(s, j, pat[0], pat[1])
    ensures Find(s, pat) == Some(i)
  {
    NoOccurrenceBefore(s, pat, i);
    FindIs(s, pat, i);
  }

  /** A string in which the two leading characters of `pat` never appear together lacks `pat`. */
  lemma AbsentByPair(s: string, pat: string)
    requires |pat| >= 2
    requires forall j :: 0 <= j < |s| ==> !PairAt(s, j, pat[0], pat[1])
    ensures !Contains(s, pat)
  {
    NoOccurrenceBefore(s, pat, |s|);
    FindSpec(s, pat);
  }

  /** A string without the character `c` lacks the one-character pattern `[c]`. */
  lemma AbsentChar(s: string, c: char)
    requires forall j :: 0 <= j < |s| ==> s[j] != c
    ensures !Contains(s, [c])
  {
    forall j | 0 <= j < |s|
      ensures !OccursAt(s, [c], j)
    {
      assert s[j..j + 1][0] == s[j];
    }
    FindSpec(s, [c]);
  }

  /** The first piece of a split ends at the first separator. */
  lemma SplitFirstPiece(s: string, sep: string, i: nat)
    requires sep != []
    requires Find(s, sep) == Some(i)
    ensures Split(s, sep)[0] == s[..i]
  {
  }

  /** A string with exactly one separator splits into two pieces; piece `[1]` is what follows it. */
  lemma SecondPieceOfTwo(s: string, sep: string, i: nat)
    requires sep != []
    requires Find(s, sep) == Some(i)
    requires !Contains(s[i + |sep|..], sep)
    ensures Index(Split(s, sep), 1) == Some(s[i + |sep|..])
  {
    assert Split(s, sep) == [s[..i]] + [s[i + |sep|..]];
  }

  /** Replacing the only occurrence of `pat` by nothing removes it. */
  lemma ReplaceOnce(s: string, pat: string, i: nat)
    requires pat != []
    requires Find(s, pat) == Some(i)
    requires !Contains(s[i + |pat|..], pat)
    ensures Replace(s, pat, "") == s[..i] + s[i + |pat|..]
  {
    ReplaceAbsent(s[i + |pat|..], pat, "");
  }

  /** A string that neither starts nor ends with whitespace is its own `strip()`. */
  lemma StripPlain(s: string)
    requires s == [] || (!IsSpace(s[0]) && !IsSpace(s[|s| - 1]))
    ensures Strip(s) == s
  {
    StripSurrounded("", s, "");
    assert "" + s + "" == s;
  }

  /**
   * `replace()` does not rescan its output: removing the marker can leave a new
   * one behind, as in "BB. . x", where dropping "B. " leaves "B. x".
   */
  lemma ReplaceCanCreateMarker()
    ensures Replace("BB. . x", "B. ", "") == "B. x"
    ensures Contains(Replace("BB. . x", "B. ", ""), "B. ")
  {
    var s := "BB. . x";
    assert OccursAt(s, "B. ", 1) by { assert s[1..4] == "B. "; }
    FindByPair(s, "B. ", 1);
    assert s[..1] == "B" && s[4..] == ". x";
    AbsentByPair(". x", "B. ");
    ReplaceAbsent(". x", "B. ", "");
    assert OccursAt("B. x", "B. ", 0) by { assert "B. x"[0..3] == "B. "; }
    FindIs("B. x", "B. ", 0);
  }

  // ---------------------------------------------------------------------
  // Pair-free strings, built piece by piece

  /** The characters `x` and `y` never stand side by side in `s`. */
  predicate PairFree(s: string, x: char, y: char) {
    forall j :: 0 <= j < |s| ==> !PairAt(s, j, x, y)
  }

  /** A string without `y` never has `y` after `x`. */
  lemma LacksCharPairFree(s: string, x: char, y: char)
    requires forall k :: 0 <= k < |s| ==> s[k] != y
    ensures PairFree(s, x, y)
  {
    forall j | 0 <= j < |s| ensures !PairAt(s, j, x, y) {
      if j + 1 < |s| {
        assert s[j + 1] != y;
      }
    }
  }

  /** Two pair-free strings stay pair-free when the second does not start with `y`. */
  lemma PairFreeAppend(s: string, t: string, x: char, y: char)
    requires PairFree(s, x, y) && PairFree(t, x, y)
    requires t == [] || t[0] != y
    ensures PairFree(s + t, x, y)
  {
    var st := s + t;
    forall j | 0 <= j < |st| ensures !PairAt(st, j, x, y) {
      if j + 1 < |s| {
        assert st[j] == s[j] && st[j + 1] == s[j + 1];
        assert !PairAt(s, j, x, y);
      } else if j + 1 == |s| {
        if j + 1 < |st| {
          assert st[j + 1] == t[0];
        }
      } else if j + 1 < |st| {
        assert st[j] == t[j - |s|] && st[j + 1] == t[j + 1 - |s|];
        assert !PairAt(t, j - |s|, x, y);
      }
    }
  }

  /** Pairs inside a pair-free `s` stay absent when `t` follows, provided `t` does not start with `y`. */
  lemma PairFreePrefix(s: string, t: string, x: char, y: char)
    requires PairFree(s, x, y)
    requires t == [] || t[0] != y
    ensures forall j :: 0 <= j < |s| ==> !PairAt(s + t, j, x, y)
  {
    var st := s + t;
    forall j | 0 <= j < |s| ensures !PairAt(st, j, x, y) {
      if j + 1 < |s| {
        assert st[j] == s[j] && st[j + 1] == s[j + 1];
        assert !PairAt(s, j, x, y);
      } else if j + 1 < |st| {
        assert st[j + 1] == t[0];
      }
    }
  }

  /** Python's `(s + " ").strip()` is `s.strip()`: a trailing space changes nothing. */
  lemma StripAppendSpace(s: string)
    ensures Strip(s + " ") == Strip(s)
  {
    LStripAppendSpace(s);
    var l := LStrip(s);
    if l != [] {
      assert (l + " ")[..|l|] == l;
    }
  }

  lemma {:induction false} LStripAppendSpace(s: string)
    ensures LStrip(s + " ") == if LStrip(s) == [] then [] else LStrip(s) + " "
  {
    if s == [] {
      assert LStrip(" ") == LStrip(" "[1..]);
    } else if IsSpace(s[0]) {
      assert (s + " ")[1..] == s[1..] + " ";
      LStripAppendSpace(s[1..]);
    }
  }

  /** A three-character marker not in `x`, with `x` ending in a space, is first found right after `x`. */
  lemma MarkerAfterSpace(x: string, m: string)
    requires |m| == 3 && m[0] != ' ' && m[1] != ' '
    requires x != [] && x[|x| - 1] == ' '
    requires !Contains(x, m)
    ensures Find(x + m, m) == Some(|x|)
  {
    var s := x + m;
    assert s[|x|..|x| + 3] == m;
    FindSpec(x, m);
    forall j | 0 <= j < |x| ensures !OccursAt(s, m, j) {
      if j + 3 <= |x| {
        assert s[j..j + 3] == x[j..j + 3];
        assert !OccursAt(x, m, j);
      } else if j == |x| - 1 {
        assert s[j..j + 3][0] == ' ';
      } else {
        assert s[j..j + 3][1] == ' ';
      }
    }
    FindIs(s, m, |x|);
  }
}
