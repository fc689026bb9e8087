/**
 * The JavaScript string operations both scripts are built from, on
 * `string` (a sequence of characters): the white space of regular
 * expressions (`\s`) and of `trim`, the line terminators `.` does not
 * match, `split` on one character, `join`, `trim`, `indexOf` and `replace`
 * with a string pattern, `filter`, and the decimal text of a number.
 */
module JsText {
  import opened JsValues

  /**
   * The white space and the four line terminators (\n, \r, U+2028, U+2029)
   * of JavaScript, apart from the range U+2000..U+200A.
   */
  const SpaceChars: set<char> := {
    '\t', '\n', '\U{000B}', '\U{000C}', '\r', ' ', '\U{00A0}', '\U{1680}',
    '\U{2028}', '\U{2029}', '\U{202F}', '\U{205F}', '\U{3000}', '\U{FEFF}'
  }

  /** The characters `\s` matches and `String.prototype.trim` removes (white space and line terminators). */
  predicate IsSpace(c: char)
  {
    c in SpaceChars || '\U{2000}' <= c <= '\U{200A}'
  }

  /** The line terminators: the characters `.` does not match in a regular expression without the `s` flag. */
  predicate IsTerminator(c: char)
  {
    c in {'\n', '\r', '\U{2028}', '\U{2029}'}
  }

  predicate AllSpace(s: string)
  {
    forall i :: 0 <= i < |s| ==> IsSpace(s[i])
  }

  predicate NoSpace(s: string)
  {
    forall i :: 0 <= i < |s| ==> !IsSpace(s[i])
  }

  predicate NoTerminator(s: string)
  {
    forall i :: 0 <= i < |s| ==> !IsTerminator(s[i])
  }

  /** `s.split(sep)` for a one-character separator. */
  function SplitOn(s: string, sep: char): (parts: seq<string>)
    ensures |parts| >= 1
    ensures forall i :: 0 <= i < |parts| ==> sep !in parts[i]
  {
    if s == [] then [""]
    else
      var rest := SplitOn(s[1..], sep);
      if s[0] == sep then [""] + rest else [[s[0]] + rest[0]] + rest[1..]
  }

  /** `parts.join(sep)`. */
  function Join(parts: seq<string>, sep: string): string
  {
    if |parts| == 0 then ""
    else if |parts| == 1 then parts[0]
    else parts[0] + sep + Join(parts[1..], sep)
  }

  /** Splitting at a separator occurrence splits the two sides independently. */
  lemma {:induction false} SplitAppend(a: string, b: string, sep: char)
    ensures SplitOn(a + [sep] + b, sep) == SplitOn(a, sep) + SplitOn(b, sep)
  {
    if a == [] {
      assert a + [sep] + b == [sep] + b;
      assert ([sep] + b)[1..] == b;
    } else {
      assert (a + [sep] + b)[1..] == a[1..] + [sep] + b;
      SplitAppend(a[1..], b, sep);
    }
  }

  /** A text without the separator is one part. */
  lemma {:induction false} SplitWithoutSeparator(s: string, sep: char)
    requires sep !in s
    ensures SplitOn(s, sep) == [s]
  {
    if s != [] {
      assert sep !in s[1..];
      SplitWithoutSeparator(s[1..], sep);
      assert s == [s[0]] + s[1..];
    }
  }

  /** `split` undoes `join` when no part holds the separator. */
  lemma {:induction false} SplitJoin(parts: seq<string>, sep: char)
    requires |parts| >= 1
    requires forall i :: 0 <= i < |parts| ==> sep !in parts[i]
    ensures SplitOn(Join(parts, [sep]), sep) == parts
  {
    if |parts| == 1 {
      SplitWithoutSeparator(parts[0], sep);
    } else {
      SplitJoin(parts[1..], sep);
      SplitWithoutSeparator(parts[0], sep);
      SplitAppend(parts[0], Join(parts[1..], [sep]), sep);
      assert parts == [parts[0]] + parts[1..];
    }
  }

  /** Appending text without the separator extends the last part. */
  lemma {:induction false} SplitExtend(a: string, b: string, sep: char)
    requires sep !in b
    ensures SplitOn(a + b, sep) ==
      SplitOn(a, sep)[..|SplitOn(a, sep)| - 1] + [SplitOn(a, sep)[|SplitOn(a, sep)| - 1] + b]
  {
    if a == [] {
      assert a + b == b;
      SplitWithoutSeparator(b, sep);
    } else {
      assert (a + b)[0] == a[0] && (a + b)[1..] == a[1..] + b;
      SplitExtend(a[1..], b, sep);
      var p := SplitOn(a[1..], sep);
      if a[0] == sep {
        ExtendAfterFirst("", p, b);
      } else {
        ExtendFirst(a[0], p, b);
      }
    }
  }

  /** Extending the last part of `[x] + p` extends the last part of `p`. */
  lemma ExtendAfterFirst(x: string, p: seq<string>, b: string)
    requires |p| >= 1
    ensures var q := [x] + p;
      q[..|q| - 1] + [q[|q| - 1] + b] == [x] + (p[..|p| - 1] + [p[|p| - 1] + b])
  {
    var q := [x] + p;
    assert q[..|q| - 1] == [x] + p[..|p| - 1];
  }

  /** Extending the last part when a character is put in front of the first part. */
  lemma ExtendFirst(c: char, p: seq<string>, b: string)
    requires |p| >= 1
    ensures var q, r := [[c] + p[0]] + p[1..], p[..|p| - 1] + [p[|p| - 1] + b];
      q[..|q| - 1] + [q[|q| - 1] + b] == [[c] + r[0]] + r[1..]
  {
    var q, r := [[c] + p[0]] + p[1..], p[..|p| - 1] + [p[|p| - 1] + b];
    if |p| == 1 {
      assert [c] + p[0] + b == [c] + (p[0] + b);
    } else {
      assert r[0] == p[0] && r[1..] == p[1..|p| - 1] + [p[|p| - 1] + b];
      assert q[..|q| - 1] == [[c] + p[0]] + p[1..|p| - 1];
    }
  }

  /** Appending a separator and a text without it adds that text as a new last part. */
  lemma SplitNewPart(a: string, c: string, sep: char)
    requires sep !in c
    ensures SplitOn(a + ([sep] + c), sep) == SplitOn(a, sep) + [c]
  {
    assert a + ([sep] + c) == a + [sep] + c;
    SplitAppend(a, c, sep);
    SplitWithoutSeparator(c, sep);
  }

  /** The first index at or after `from` that holds no white space (or |s|): where a greedy `\s*` stops. */
  function SkipSpace(s: string, from: nat): (r: nat)
    requires from <= |s|
    decreases |s| - from
    ensures from <= r <= |s|
    ensures forall i :: from <= i < r ==> IsSpace(s[i])
    ensures r == |s| || !IsSpace(s[r])
  {
    if from < |s| && IsSpace(s[from]) then SkipSpace(s, from + 1) else from
  }

  /** The first index at or after `from` that holds white space (or |s|): where a greedy `\S*` stops. */
  function SkipWord(s: string, from: nat): (r: nat)
    requires from <= |s|
    decreases |s| - from
    ensures from <= r <= |s|
    ensures forall i :: from <= i < r ==> !IsSpace(s[i])
    ensures r == |s| || IsSpace(s[r])
  {
    if from < |s| && !IsSpace(s[from]) then SkipWord(s, from + 1) else from
  }

  /** A greedy `\s*` from `from` stops at `k` when white space fills [from, k) and none is at `k`. */
  lemma {:induction false} SkipSpaceAt(s: string, from: nat, k: nat)
    requires from <= k <= |s|
    requires forall i :: from <= i < k ==> IsSpace(s[i])
    requires k == |s| || !IsSpace(s[k])
    decreases k - from
    ensures SkipSpace(s, from) == k
  {
    if from < k {
      SkipSpaceAt(s, from + 1, k);
    }
  }

  /** A greedy `\s*` from `from` runs at least over a white-space stretch [from, k). */
  lemma {:induction false} SkipSpacePast(s: string, from: nat, k: nat)
    requires from <= k <= |s|
    requires forall i :: from <= i < k ==> IsSpace(s[i])
    decreases k - from
    ensures SkipSpace(s, from) >= k
  {
    if from < k {
      SkipSpacePast(s, from + 1, k);
    }
  }

  /** A greedy `\S*` from `from` stops at `k` when [from, k) holds no white space and `k` does (or is the end). */
  lemma {:induction false} SkipWordAt(s: string, from: nat, k: nat)
    requires from <= k <= |s|
    requires forall i :: from <= i < k ==> !IsSpace(s[i])
    requires k == |s| || IsSpace(s[k])
    decreases k - from
    ensures SkipWord(s, from) == k
  {
    if from < k {
      SkipWordAt(s, from + 1, k);
    }
  }

  /** A greedy `\S*` from `from` runs at least over a stretch [from, k) without white space. */
  lemma {:induction false} SkipWordPast(s: string, from: nat, k: nat)
    requires from <= k <= |s|
    requires forall i :: from <= i < k ==> !IsSpace(s[i])
    decreases k - from
    ensures SkipWord(s, from) >= k
  {
    if from < k {
      SkipWordPast(s, from + 1, k);
    }
  }

  /** The word scan of a suffix is the word scan of the whole text, shifted. */
  lemma SkipWordShift(s: string, c: nat)
    requires c <= |s|
    ensures SkipWord(s[c..], 0) == SkipWord(s, c) - c
  {
    var t := SkipWord(s, c);
    forall i | 0 <= i < t - c ensures !IsSpace(s[c..][i]) {
      assert s[c..][i] == s[c + i];
    }
    assert t < |s| ==> s[c..][t - c] == s[t];
    SkipWordAt(s[c..], 0, t - c);
  }

  /** `s.trimStart()`. */
  function TrimStart(s: string): (r: string)
    ensures |r| <= |s| && r == s[|s| - |r|..]
    ensures AllSpace(s[..|s| - |r|])
    ensures r == [] || !IsSpace(r[0])
  {
    if |s| > 0 && IsSpace(s[0]) then TrimStart(s[1..]) else s
  }

  /** `s.trimEnd()`. */
  function TrimEnd(s: string): (r: string)
    ensures |r| <= |s| && r == s[..|r|]
    ensures AllSpace(s[|r|..])
    ensures r == [] || !IsSpace(r[|r| - 1])
  {
    if |s| > 0 && IsSpace(s[|s| - 1]) then
      var r := TrimEnd(s[..|s| - 1]);
      assert s[|r|..] == s[..|s| - 1][|r|..] + [s[|s| - 1]];
      r
    else s
  }

  /** `s.trim()`: `s` without its white-space prefix and suffix. */
  function Trim(s: string): (r: string)
    ensures |r| <= |s|
    ensures r == [] || (!IsSpace(r[0]) && !IsSpace(r[|r| - 1]))
  {
    var t := TrimStart(s);
    var r := TrimEnd(t);
    assert r != [] ==> r[0] == t[0];
    r
  }

  /** What `trim` removes is white space: the result sits in `s` between a white-space prefix and suffix. */
  lemma TrimParts(s: string) returns (i: nat)
    ensures i + |Trim(s)| <= |s| && Trim(s) == s[i..i + |Trim(s)|]
    ensures AllSpace(s[..i]) && AllSpace(s[i + |Trim(s)|..])
  {
    var t := TrimStart(s);
    i := |s| - |t|;
    assert t == s[i..] && AllSpace(s[..i]);
    var r := TrimEnd(t);
    assert r == t[..|r|] && AllSpace(t[|r|..]);
    assert Trim(s) == r;
    SliceParts(s, i, |r|);
    assert t[|r|..] == s[i + |r|..];
  }

  /** Slicing a suffix of `s` again: a prefix of it and the rest. */
  lemma SliceParts(s: string, i: nat, n: nat)
    requires i + n <= |s|
    ensures s[i..][..n] == s[i..i + n] && s[i..][n..] == s[i + n..]
  {
  }

  /** `trim` removes trailing white space and leaves a text with non-space ends alone. */
  lemma {:induction false} TrimKeep(s: string, w: string)
    requires s != [] && !IsSpace(s[0]) && !IsSpace(s[|s| - 1]) && AllSpace(w)
    ensures Trim(s + w) == s
  {
    assert (s + w)[0] == s[0];
    TrimEndSpace(s, w);
  }

  lemma {:induction false} TrimEndSpace(s: string, w: string)
    requires s != [] && !IsSpace(s[|s| - 1]) && AllSpace(w)
    decreases |w|
    ensures TrimEnd(s + w) == s
  {
    if w == [] {
      assert s + w == s;
    } else {
      var w' := w[..|w| - 1];
      assert (s + w)[..|s + w| - 1] == s + w';
      assert (s + w)[|s + w| - 1] == w[|w| - 1];
      TrimEndSpace(s, w');
    }
  }

  /** Prefixing a joined text prefixes its first part. */
  lemma JoinPrefix(prefix: string, parts: seq<string>, sep: string)
    requires |parts| >= 1
    ensures prefix + Join(parts, sep) == Join([prefix + parts[0]] + parts[1..], sep)
  {
    var parts' := [prefix + parts[0]] + parts[1..];
    assert parts'[1..] == parts[1..];
  }

  /** `pat` occurs in `s` at index `p`. */
  predicate OccursAt(s: string, pat: string, p: nat)
  {
    p + |pat| <= |s| && s[p..p + |pat|] == pat
  }

  /** `s.indexOf(pat, from)`, with `None` for -1. */
  function IndexOfFrom(s: string, pat: string, from: nat): (r: Option<nat>)
    decreases |s| - from
    ensures r.Some? ==> from <= r.value && OccursAt(s, pat, r.value)
    ensures r.Some? ==> forall p: nat :: from <= p < r.value ==> !OccursAt(s, pat, p)
    ensures r.None? ==> forall p: nat :: from <= p ==> !OccursAt(s, pat, p)
  {
    if from + |pat| > |s| then None
    else if OccursAt(s, pat, from) then Some(from)
    else IndexOfFrom(s, pat, from + 1)
  }

  /** `s.indexOf(pat)`. */
  function IndexOf(s: string, pat: string): Option<nat>
  {
    IndexOfFrom(s, pat, 0)
  }

  /** `s.replace(pat, rep)` with a string pattern: only the first occurrence is replaced. */
  function ReplaceFirst(s: string, pat: string, rep: string): string
  {
    match IndexOf(s, pat)
    case None => s
    case Some(p) => s[..p] + rep + s[p + |pat|..]
  }

  /** `ls.filter(keep)`. */
  function Filter(ls: seq<string>, keep: string -> bool): (r: seq<string>)
    ensures |r| <= |ls|
    ensures forall i :: 0 <= i < |r| ==> keep(r[i])
  {
    if ls == [] then [] else (if keep(ls[0]) then [ls[0]] else []) + Filter(ls[1..], keep)
  }

  lemma {:induction false} FilterAppend(a: seq<string>, b: seq<string>, keep: string -> bool)
    ensures Filter(a + b, keep) == Filter(a, keep) + Filter(b, keep)
  {
    if a == [] {
      assert a + b == b;
    } else {
      assert (a + b)[0] == a[0] && (a + b)[1..] == a[1..] + b;
      FilterAppend(a[1..], b, keep);
    }
  }

  /** `filter` keeps a list whose every element passes. */
  lemma {:induction false} FilterAll(ls: seq<string>, keep: string -> bool)
    requires forall i :: 0 <= i < |ls| ==> keep(ls[i])
    ensures Filter(ls, keep) == ls
  {
    if ls != [] {
      FilterAll(ls[1..], keep);
      assert ls == [ls[0]] + ls[1..];
    }
  }

  /** The last index in [lo, hi) that holds `c`. */
  function LastIndexIn(s: string, c: char, lo: nat, hi: nat): (r: Option<nat>)
    requires lo <= hi <= |s|
    decreases hi - lo
    ensures r.Some? ==> lo <= r.value < hi && s[r.value] == c
    ensures r.Some? ==> forall i :: r.value < i < hi ==> s[i] != c
    ensures r.None? ==> forall i :: lo <= i < hi ==> s[i] != c
  {
    if lo == hi then None
    else if s[hi - 1] == c then Some(hi - 1)
    else LastIndexIn(s, c, lo, hi - 1)
  }

  /** An occurrence of `c` in [lo, hi) is found, or a later one is. */
  lemma {:induction false} LastIndexInAtLeast(s: string, c: char, lo: nat, hi: nat, k: nat)
    requires lo <= k < hi <= |s| && s[k] == c
    decreases hi - lo
    ensures LastIndexIn(s, c, lo, hi).Some? && LastIndexIn(s, c, lo, hi).value >= k
  {
    if s[hi - 1] != c {
      assert k < hi - 1;
      LastIndexInAtLeast(s, c, lo, hi - 1, k);
    }
  }

  /** The occurrence of `c` that no other occurrence in [lo, hi) follows is the one found. */
  lemma LastIndexInAt(s: string, c: char, lo: nat, hi: nat, k: nat)
    requires lo <= k < hi <= |s| && s[k] == c
    requires forall i :: k < i < hi ==> s[i] != c
    ensures LastIndexIn(s, c, lo, hi) == Some(k)
  {
    LastIndexInAtLeast(s, c, lo, hi, k);
  }

  /** Index of the last white-space character of `s`. */
  function LastSpace(s: string): (r: Option<nat>)
    ensures r.Some? ==> r.value < |s| && IsSpace(s[r.value]) && NoSpace(s[r.value + 1..])
    ensures r.None? ==> NoSpace(s)
  {
    if |s| == 0 then None
    else if IsSpace(s[|s| - 1]) then Some(|s| - 1)
    else
      var r := LastSpace(s[..|s| - 1]);
      assert s == s[..|s| - 1] + [s[|s| - 1]];
      assert r.Some? ==> s[r.value + 1..] == s[..|s| - 1][r.value + 1..] + [s[|s| - 1]];
      r
  }

  function DigitChar(d: nat): char
    requires d < 10
  {
    (48 + d) as char
  }

  /** The decimal text of a number in a template literal, `${ n }`. */
  function Decimal(n: nat): (r: string)
    ensures |r| >= 1
    ensures forall i :: 0 <= i < |r| ==> '0' <= r[i] <= '9'
  {
    if n < 10 then [DigitChar(n)] else Decimal(n / 10) + [DigitChar(n % 10)]
  }
}
