/**
 * The two line rules of the edited masked-email file, as `parse` in
 * scripts/masked-email.js applies them to every line:
 *
 *   header line   /^\S.* \(id: (\S+)\)$/    captures the id of a new block
 *   field line    /^\s*(\S+):\s*(.*)$/      captures a key and its value
 *
 * Each regular expression is given twice: as a predicate saying how the line
 * decomposes around the pattern (a "shape"), and as a matcher function. The
 * lemmas prove that the matcher reports a match exactly when a shape exists,
 * and that its captures are the ones a greedy, backtracking matcher picks
 * (the first success in JavaScript's backtracking order).
 */
module LineGrammar {
  import opened JsValues
  import opened JsText

  /** The literal text between the free part of a header line and its id. */
  const IdMarker: string := " (id: "

  /** `line` is `pre + " (id: " + id + ")"`, with `pre` matching `\S.*` and `id` matching `\S+`. */
  predicate HeaderShape(line: string, pre: string, id: string)
  {
    && line == pre + IdMarker + id + ")"
    && |pre| >= 1 && !IsSpace(pre[0]) && NoTerminator(pre)
    && |id| >= 1 && NoSpace(id)
  }

  /** `line.match(/^\S.* \(id: (\S+)\)$/)`, giving the captured id. */
  function MatchHeader(line: string): Option<string>
  {
    if |line| == 0 || line[|line| - 1] != ')' then None
    else
      var body := line[..|line| - 1];
      match LastSpace(body)
      case None => None
      case Some(q) =>
        if 6 <= q && q + 1 < |body| && body[q - 5..q + 1] == IdMarker
           && !IsSpace(body[0]) && NoTerminator(body[..q - 5])
        then Some(body[q + 1..])
        else None
  }

  /** What the header matcher captures is the id of a header shape of the line. */
  lemma MatchHeaderSound(line: string)
    ensures MatchHeader(line).Some? ==>
      var id := MatchHeader(line).value;
      |id| + 7 <= |line| && HeaderShape(line, line[..|line| - |id| - 7], id)
  {
    if MatchHeader(line).Some? {
      var body := line[..|line| - 1];
      var q := LastSpace(body).value;
      var pre, id := body[..q - 5], body[q + 1..];
      assert MatchHeader(line) == Some(id);
      SliceThree(body, q - 5, q + 1);
      assert line == body + ")";
      assert line == pre + IdMarker + id + ")";
      assert line[..|line| - |id| - 7] == pre by {
        ThreePieces(pre, IdMarker, id + ")");
        assert line == pre + IdMarker + (id + ")");
      }
      assert pre[0] == line[0];
    }
  }

  /** A text is its three slices at `i` and `j` put back together. */
  lemma SliceThree(s: string, i: nat, j: nat)
    requires i <= j <= |s|
    ensures s == s[..i] + s[i..j] + s[j..]
  {
  }

  /** The last white-space character of a text is the one that no white space follows. */
  lemma {:induction false} LastSpaceAt(s: string, q: nat)
    requires q < |s| && IsSpace(s[q]) && NoSpace(s[q + 1..])
    ensures LastSpace(s) == Some(q)
  {
    if q < |s| - 1 {
      assert s[q + 1..][|s| - 2 - q] == s[|s| - 1];
      assert s[..|s| - 1][q + 1..] == s[q + 1..|s| - 1];
      LastSpaceAt(s[..|s| - 1], q);
    }
  }

  /** Every line of header shape is recognised, with the id of its shape. */
  lemma MatchHeaderComplete(line: string, pre: string, id: string)
    requires HeaderShape(line, pre, id)
    ensures MatchHeader(line) == Some(id)
  {
    var body := pre + IdMarker + id;
    assert line == body + ")";
    assert line[..|line| - 1] == body;
    var q := |pre| + 5;
    ThreePieces(pre, IdMarker, id);
    assert body[q] == IdMarker[5];
    LastSpaceAt(body, q);
    assert body[0] == pre[0];
    MatchHeaderAt(line, q);
  }

  /** The slices of a text made of three pieces. */
  lemma ThreePieces(a: string, b: string, c: string)
    ensures (a + b + c)[..|a|] == a && (a + b + c)[|a|..|a| + |b|] == b && (a + b + c)[|a| + |b|..] == c
  {
  }

  /** The header matcher's result once the last space of the line before `)` is known. */
  lemma MatchHeaderAt(line: string, q: nat)
    requires |line| >= 1 && line[|line| - 1] == ')'
    requires LastSpace(line[..|line| - 1]) == Some(q)
    requires 6 <= q && q + 1 < |line| - 1
    requires line[..|line| - 1][q - 5..q + 1] == IdMarker && !IsSpace(line[0])
    requires NoTerminator(line[..|line| - 1][..q - 5])
    ensures MatchHeader(line) == Some(line[..|line| - 1][q + 1..])
  {
  }

  /** The header id is determined by the line: a header line has one shape only. */
  lemma HeaderShapeUnique(line: string, pre: string, id: string, pre': string, id': string)
    requires HeaderShape(line, pre, id) && HeaderShape(line, pre', id')
    ensures pre == pre' && id == id'
  {
    MatchHeaderComplete(line, pre, id);
    MatchHeaderComplete(line, pre', id');
    assert |pre| == |line| - |id| - 7 == |pre'|;
    assert pre == line[..|pre|] && pre' == line[..|pre'|];
  }

  /**
   * `line` is `ws + key + ":" + ws2 + value`, with `ws` and `ws2` matching
   * the two `\s*`, `key` matching `\S+` and `value` matching `.*`.
   */
  predicate FieldShape(line: string, ws: string, key: string, ws2: string, value: string)
  {
    && line == ws + key + ":" + ws2 + value
    && AllSpace(ws) && |key| >= 1 && NoSpace(key) && AllSpace(ws2) && NoTerminator(value)
  }

  /**
   * The shape a backtracking matcher reports: `(\S+)` as long as possible
   * (no colon follows the key's colon within its word), and the second
   * `\s*` as long as possible (`value` does not start with white space).
   */
  predicate GreedyFieldShape(line: string, ws: string, key: string, ws2: string, value: string)
  {
    && FieldShape(line, ws, key, ws2, value)
    && (value == [] || !IsSpace(value[0]))
    && (|ws2| > 0 || ':' !in value[..SkipWord(value, 0)])
  }

  /** The first word of `line`: its first run of non-white-space characters. */
  function FirstWord(line: string): string
  {
    var n := SkipSpace(line, 0);
    line[n..SkipWord(line, n)]
  }

  /** `line.match(/^\s*(\S+):\s*(.*)$/)`, giving the captured key and value. */
  function MatchField(line: string): Option<(string, string)>
  {
    var n := SkipSpace(line, 0);
    match LastIndexIn(line, ':', n, SkipWord(line, n))
    case None => None
    case Some(j) =>
      if j == n then None
      else
        var m := SkipSpace(line, j + 1);
        if NoTerminator(line[m..]) then Some((line[n..j], line[m..])) else None
  }

  /** A line whose first word holds no colon is not a field line. */
  lemma NoColonNoField(line: string)
    requires ':' !in FirstWord(line)
    ensures MatchField(line) == None
  {
    var n := SkipSpace(line, 0);
    var t := SkipWord(line, n);
    forall i | n <= i < t ensures line[i] != ':' {
      assert line[n..t][i - n] == line[i];
    }
  }

  /** Five consecutive slices of a line put back together give the line. */
  lemma Reassemble(line: string, n: nat, j: nat, m: nat)
    requires n <= j < m <= |line| && line[j] == ':'
    ensures line == line[..n] + line[n..j] + ":" + line[j + 1..m] + line[m..]
  {
    assert line == line[..n] + line[n..j] + line[j..j + 1] + line[j + 1..m] + line[m..];
    assert line[j..j + 1] == ":";
  }

  /** What the matcher captures is the greedy decomposition of the line (with the two white-space runs returned). */
  lemma MatchFieldSound(line: string) returns (ws: string, ws2: string)
    ensures MatchField(line).Some? ==>
      GreedyFieldShape(line, ws, MatchField(line).value.0, ws2, MatchField(line).value.1)
  {
    ws, ws2 := [], [];
    if MatchField(line).Some? {
      var n := SkipSpace(line, 0);
      var t := SkipWord(line, n);
      var j := LastIndexIn(line, ':', n, t).value;
      var m := SkipSpace(line, j + 1);
      assert MatchField(line) == Some((line[n..j], line[m..]));
      ws, ws2 := line[..n], line[j + 1..m];
      forall i | m <= i < |line| ensures !IsTerminator(line[i]) {
        assert line[m..][i - m] == line[i];
      }
      AtShape(line, n, j, m);
      if m == j + 1 {
        SkipWordAt(line, m, t);
        ColonFreeWord(line, m, t);
      }
    }
  }

  /** A field line described by indices has the field shape of its slices. */
  lemma AtShape(line: string, a: nat, b: nat, c: nat)
    requires FieldAt(line, a, b, c)
    ensures FieldShape(line, line[..a], line[a..b], line[b + 1..c], line[c..])
    ensures c == |line| || !IsSpace(line[c]) ==> line[c..] == [] || !IsSpace(line[c..][0])
  {
    Reassemble(line, a, b, c);
    var ws, key, ws2, value := line[..a], line[a..b], line[b + 1..c], line[c..];
    forall i | 0 <= i < |ws| ensures IsSpace(ws[i]) {
      assert ws[i] == line[i];
    }
    forall i | 0 <= i < |key| ensures !IsSpace(key[i]) {
      assert key[i] == line[a + i];
    }
    forall i | 0 <= i < |ws2| ensures IsSpace(ws2[i]) {
      assert ws2[i] == line[b + 1 + i];
    }
    forall i | 0 <= i < |value| ensures !IsTerminator(value[i]) {
      assert value[i] == line[c + i];
    }
  }

  /** A colon-free word of `line` from `m` to `t` is the colon-free first word of `line[m..]`. */
  lemma ColonFreeWord(line: string, m: nat, t: nat)
    requires m <= t <= |line| && SkipWord(line, m) == t
    requires forall i :: m <= i < t ==> line[i] != ':'
    ensures ':' !in line[m..][..SkipWord(line[m..], 0)]
  {
    SkipWordShift(line, m);
    var v := line[m..][..t - m];
    forall i | 0 <= i < |v| ensures v[i] != ':' {
      assert v[i] == line[m + i];
    }
  }

  /** Every line of field shape is recognised (possibly with a longer key). */
  lemma MatchFieldComplete(line: string, ws: string, key: string, ws2: string, value: string)
    requires FieldShape(line, ws, key, ws2, value)
    ensures MatchField(line).Some?
    ensures |MatchField(line).value.0| >= |key|
  {
    ShapeIndices(line, ws, key, ws2, value);
    FieldMatched(line, |ws|, |ws| + |key|, |ws| + |key| + 1 + |ws2|);
  }

  /**
   * A field line described by indices: white space before `a`, the key in
   * [a, b), its colon at `b`, white space in (b, c) and the value from `c`.
   */
  predicate FieldAt(line: string, a: nat, b: nat, c: nat)
  {
    && a < b < c <= |line| && line[b] == ':'
    && (forall i :: 0 <= i < a ==> IsSpace(line[i]))
    && (forall i :: a <= i < b ==> !IsSpace(line[i]))
    && (forall i :: b < i < c ==> IsSpace(line[i]))
    && (forall i :: c <= i < |line| ==> !IsTerminator(line[i]))
  }

  /** Where the parts of a field shape lie in the line. */
  lemma ShapeIndices(line: string, ws: string, key: string, ws2: string, value: string)
    requires FieldShape(line, ws, key, ws2, value)
    ensures FieldAt(line, |ws|, |ws| + |key|, |ws| + |key| + 1 + |ws2|)
    ensures line[|ws|..|ws| + |key|] == key
    ensures line[|ws| + |key| + 1 + |ws2|..] == value
  {
    var b := |ws| + |key|;
    var c := b + 1 + |ws2|;
    assert line[..|ws|] == ws;
    assert line[|ws|..b] == key;
    assert line[b + 1..c] == ws2;
    assert line[c..] == value;
    forall i | 0 <= i < |ws| ensures IsSpace(line[i]) {
      assert line[..|ws|][i] == line[i];
    }
    forall i | |ws| <= i < b ensures !IsSpace(line[i]) {
      assert line[|ws|..b][i - |ws|] == line[i];
    }
    forall i | b < i < c ensures IsSpace(line[i]) {
      assert line[b + 1..c][i - b - 1] == line[i];
    }
    forall i | c <= i < |line| ensures !IsTerminator(line[i]) {
      assert line[c..][i - c] == line[i];
    }
  }

  /** Where the matcher's scan of a field line stops: the key's last colon lies at or after `b`. */
  lemma FieldScan(line: string, a: nat, b: nat, c: nat)
    requires FieldAt(line, a, b, c)
    ensures SkipSpace(line, 0) == a
    ensures LastIndexIn(line, ':', a, SkipWord(line, a)).Some?
    ensures LastIndexIn(line, ':', a, SkipWord(line, a)).value >= b
    ensures LastIndexIn(line, ':', a, SkipWord(line, a)).value > b ==> c == b + 1
  {
    SkipSpaceAt(line, 0, a);
    SkipWordPast(line, a, b + 1);
    var t := SkipWord(line, a);
    LastIndexInAtLeast(line, ':', a, t, b);
    var j := LastIndexIn(line, ':', a, t).value;
    if j > b {
      assert !IsSpace(line[b + 1]);
    }
  }

  /** A field line is matched, with a key at least as long as [a, b). */
  lemma FieldMatched(line: string, a: nat, b: nat, c: nat)
    requires FieldAt(line, a, b, c)
    ensures MatchField(line).Some? && |MatchField(line).value.0| >= b - a
  {
    FieldScan(line, a, b, c);
    var j := LastIndexIn(line, ':', a, SkipWord(line, a)).value;
    if j == b {
      SkipSpacePast(line, b + 1, c);
    }
    var m := SkipSpace(line, j + 1);
    var v := line[m..];
    forall i | 0 <= i < |v| ensures !IsTerminator(v[i]) {
      assert v[i] == line[m + i];
    }
  }

  /**
   * When the second `\s*` stops at `c` and, if it is empty, the word from
   * `c` holds no colon, the matcher captures exactly [a, b) and the rest from `c`.
   */
  lemma GreedyMatched(line: string, a: nat, b: nat, c: nat)
    requires FieldAt(line, a, b, c)
    requires c == |line| || !IsSpace(line[c])
    requires c == b + 1 ==> forall i :: c <= i < SkipWord(line, c) ==> line[i] != ':'
    ensures MatchField(line) == Some((line[a..b], line[c..]))
  {
    GreedyScan(line, a, b, c);
    forall i | 0 <= i < |line| - c ensures !IsTerminator(line[c..][i]) {
      assert line[c..][i] == line[c + i];
    }
    MatchFieldAt(line, a, b, c);
  }

  /** The matcher's result once its scan is known. */
  lemma MatchFieldAt(line: string, a: nat, b: nat, c: nat)
    requires a < b < c <= |line|
    requires SkipSpace(line, 0) == a
    requires LastIndexIn(line, ':', a, SkipWord(line, a)) == Some(b)
    requires SkipSpace(line, b + 1) == c
    requires NoTerminator(line[c..])
    ensures MatchField(line) == Some((line[a..b], line[c..]))
  {
  }

  /** The scan steps of GreedyMatched: the key's last colon is at `b` and the second `\s*` stops at `c`. */
  lemma GreedyScan(line: string, a: nat, b: nat, c: nat)
    requires FieldAt(line, a, b, c)
    requires c == |line| || !IsSpace(line[c])
    requires c == b + 1 ==> forall i :: c <= i < SkipWord(line, c) ==> line[i] != ':'
    ensures SkipSpace(line, 0) == a
    ensures LastIndexIn(line, ':', a, SkipWord(line, a)) == Some(b)
    ensures SkipSpace(line, b + 1) == c
  {
    SkipSpaceAt(line, 0, a);
    SkipWordPast(line, a, b + 1);
    var t := SkipWord(line, a);
    if c == b + 1 {
      SkipWordPast(line, c, t);
    } else {
      assert IsSpace(line[b + 1]);
      SkipWordAt(line, a, b + 1);
    }
    LastIndexInAt(line, ':', a, t, b);
    SkipSpaceAt(line, b + 1, c);
  }

  /**
   * The greedy decomposition of a field line is exactly what the matcher
   * captures: the greedy shape fixes where each scan stops.
   */
  lemma MatchFieldExact(line: string, ws: string, key: string, ws2: string, value: string)
    requires GreedyFieldShape(line, ws, key, ws2, value)
    ensures MatchField(line) == Some((key, value))
  {
    ShapeIndices(line, ws, key, ws2, value);
    var a := |ws|;
    var b := a + |key|;
    var c := b + 1 + |ws2|;
    assert c < |line| ==> line[c] == value[0];
    if ws2 == [] {
      ValueWordColonFree(line, c, value);
    }
    GreedyMatched(line, a, b, c);
  }

  /** A value whose first word holds no colon gives a line whose word at `c` holds none either. */
  lemma ValueWordColonFree(line: string, c: nat, value: string)
    requires c <= |line| && line[c..] == value
    requires ':' !in value[..SkipWord(value, 0)]
    ensures forall i :: c <= i < SkipWord(line, c) ==> line[i] != ':'
  {
    SkipWordShift(line, c);
    var tv := SkipWord(value, 0);
    forall i | c <= i < SkipWord(line, c) ensures line[i] != ':' {
      assert line[i] == value[..tv][i - c];
    }
  }
}
