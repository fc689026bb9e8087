/**
 * The text the masked-email editor is opened on (scripts/masked-email.js):
 * `fmt`, the de-indenting template tag; `toString`, one record as a block of
 * four lines; and the numbering and joining of the blocks inside `edit`.
 */
module Serializer {
  import opened JsValues
  import opened JsText

  /** `${ obj[key] }` in a template literal: the string, or `null`, or `undefined`. */
  function Interpolate(v: Option<Value>): string
  {
    match v
    case None => "undefined"
    case Some(Null) => "null"
    case Some(Str(s)) => s
  }

  /** The text of a tagged template: `strs[0] + vars[0] + strs[1] + ... + strs[n]`. */
  function Interleave(strs: seq<string>, vars: seq<string>): string
    requires |strs| == |vars| + 1
  {
    if vars == [] then strs[0]
    else Interleave(strs[..|strs| - 1], vars[..|vars| - 1]) + vars[|vars| - 1] + strs[|strs| - 1]
  }

  /** The `filter(Boolean)` test on a line. */
  function NonEmpty(line: string): bool
  {
    line != []
  }

  /** The test `!line.match(/^\s*$/)`. */
  function NonBlank(line: string): bool
  {
    !AllSpace(line)
  }

  /**
   * `line.replace(/^(\s*).*$/, '$1')`: the leading white space of the line.
   * When the rest of the line holds a line terminator the pattern does not
   * match and `replace` returns the line unchanged.
   */
  function IndentOf(line: string): string
  {
    var n := SkipSpace(line, 0);
    if NoTerminator(line[n..]) then line[..n] else line
  }

  /** The `map` step of `fmt`: the first line's indent, removed once from every line. */
  function Dedent(lines: seq<string>): seq<string>
  {
    if lines == [] then [] else DedentBy(lines, IndentOf(lines[0]))
  }

  /** Every line with its first occurrence of `indent` removed. */
  function DedentBy(lines: seq<string>, indent: string): (r: seq<string>)
    ensures |r| == |lines|
    ensures forall j :: 0 <= j < |lines| ==> r[j] == ReplaceFirst(lines[j], indent, "")
  {
    if lines == [] then [] else [ReplaceFirst(lines[0], indent, "")] + DedentBy(lines[1..], indent)
  }

  /** What `fmt` returns for the template pieces `strs` and the interpolated texts `vars`. */
  function Formatted(strs: seq<string>, vars: seq<string>): (r: string)
    requires |strs| == |vars| + 1
    ensures r == [] || (!IsSpace(r[0]) && !IsSpace(r[|r| - 1]))
  {
    var lines := Filter(SplitOn(Interleave(strs, vars), '\n'), NonEmpty);
    Trim(Join(Filter(Dedent(lines), NonBlank), "\n"))
  }

  /** `fmt`, the template tag: it builds the text, then de-indents it line by line. */
  method Fmt(strs: seq<string>, vars: seq<string>) returns (r: string)
    requires |strs| == |vars| + 1
    ensures r == Formatted(strs, vars)
  {
    var str := Concatenate(strs, vars);
    var lines := Filter(SplitOn(str, '\n'), NonEmpty);
    var dedented := DedentLines(lines);
    r := Trim(Join(Filter(dedented, NonBlank), "\n"));
  }

  /** The accumulating loop of `fmt`: each value is followed by the next template piece. */
  method Concatenate(strs: seq<string>, vars: seq<string>) returns (str: string)
    requires |strs| == |vars| + 1
    ensures str == Interleave(strs, vars)
  {
    str := strs[0];
    for i := 0 to |vars|
      invariant str == Interleave(strs[..i + 1], vars[..i])
    {
      InterleaveStep(strs, vars, i);
      str := str + vars[i] + strs[i + 1];
    }
    assert strs[..|vars| + 1] == strs && vars[..|vars|] == vars;
  }

  /** The `map` step of `fmt`: the indent of the first line is taken once and removed from every line. */
  method DedentLines(lines: seq<string>) returns (dedented: seq<string>)
    ensures dedented == Dedent(lines)
  {
    var indent: Option<string> := None;
    dedented := [];
    for k := 0 to |lines|
      invariant indent == if k == 0 then None else Some(IndentOf(lines[0]))
      invariant |dedented| == k
      invariant forall j :: 0 <= j < k ==> dedented[j] == ReplaceFirst(lines[j], IndentOf(lines[0]), "")
    {
      if indent == None {
        indent := Some(IndentOf(lines[k]));
      }
      var line := ReplaceFirst(lines[k], indent.value, "");
      assert line == ReplaceFirst(lines[k], IndentOf(lines[0]), "");
      dedented := dedented + [line];
    }
    DedentOf(lines, dedented);
  }

  /** Lines that each lost the first line's indentation are `Dedent` of the lines. */
  lemma DedentOf(lines: seq<string>, dedented: seq<string>)
    requires |dedented| == |lines|
    requires forall j :: 0 <= j < |lines| ==> dedented[j] == ReplaceFirst(lines[j], IndentOf(lines[0]), "")
    ensures dedented == Dedent(lines)
  {
    if lines != [] {
      var r := DedentBy(lines, IndentOf(lines[0]));
      assert forall j :: 0 <= j < |lines| ==> dedented[j] == r[j];
    }
  }

  /** The literal pieces of the template in `toString`. */
  const RecordTemplate: seq<string> :=
    ["\n    ", " (id: ", ")\n      description: ", "\n      forDomain: ", "\n      url: ", "\n  "]

  /** `maskedEmail.url ?? ''`. */
  function UrlText(rec: MaskedEmail): string
  {
    match Prop(rec, "url")
    case Some(Str(u)) => u
    case _ => ""
  }

  function EmailText(rec: MaskedEmail): string { Interpolate(Prop(rec, "email")) }
  function IdText(rec: MaskedEmail): string { Interpolate(Prop(rec, "id")) }
  function DescriptionText(rec: MaskedEmail): string { Interpolate(Prop(rec, "description")) }
  function ForDomainText(rec: MaskedEmail): string { Interpolate(Prop(rec, "forDomain")) }

  /** The values interpolated into the `toString` template, in order. */
  function RecordValues(rec: MaskedEmail): seq<string>
  {
    [EmailText(rec), IdText(rec), DescriptionText(rec), ForDomainText(rec), UrlText(rec)]
  }

  /** `toString(maskedEmail)`. */
  function ToString(rec: MaskedEmail): string
  {
    Formatted(RecordTemplate, RecordValues(rec))
  }

  /**
   * A record whose texts `fmt` lays out as four lines: the e-mail starts with
   * a non-space character, the first line holds no line terminator, no text
   * holds a newline, and the url does not end in white space.
   */
  predicate Serializable(rec: MaskedEmail)
  {
    var e, u := EmailText(rec), UrlText(rec);
    && e != [] && !IsSpace(e[0]) && NoTerminator(e) && NoTerminator(IdText(rec))
    && '\n' !in DescriptionText(rec) && '\n' !in ForDomainText(rec) && '\n' !in u
    && (u == [] || !IsSpace(u[|u| - 1]))
  }

  /** The four lines of a record block: the empty url line keeps no trailing space. */
  function RecordLines(rec: MaskedEmail): seq<string>
  {
    LinesOf(EmailText(rec), IdText(rec), DescriptionText(rec), ForDomainText(rec), UrlText(rec))
  }

  /** One more template piece and value extend the text at its end. */
  lemma InterleaveStep(strs: seq<string>, vars: seq<string>, i: nat)
    requires |strs| == |vars| + 1 && i < |vars|
    ensures Interleave(strs[..i + 2], vars[..i + 1]) == Interleave(strs[..i + 1], vars[..i]) + vars[i] + strs[i + 1]
  {
    assert strs[..i + 2][..i + 1] == strs[..i + 1] && vars[..i + 1][..i] == vars[..i];
  }

  /** The lines `split('\n')` gives for the template text of a serializable record. */
  lemma TemplateSplit(e: string, i: string, d: string, f: string, u: string)
    requires '\n' !in e && '\n' !in i && '\n' !in d && '\n' !in f && '\n' !in u
    ensures SplitOn(Interleave(RecordTemplate, [e, i, d, f, u]), '\n') ==
      [ "", "    " + e + " (id: " + i + ")", "      description: " + d, "      forDomain: " + f, "      url: " + u, "  " ]
  {
    var t, v := RecordTemplate, [e, i, d, f, u];
    var l1 := "    " + e + " (id: " + i + ")";
    TemplateMiddle(e, i, d, f, u);
    var s4 := Interleave(t[..5], v[..4]);
    InterleaveStep(t, v, 4);
    assert t[..6] == t && v[..5] == v;
    assert Interleave(t, v) == s4 + u + ("\n" + "  ");
    NewlinePiece(s4, u, "  ", ["", l1, "      description: " + d, "      forDomain: " + f, "      url: "]);
  }

  /** The template up to the url: the e-mail line, the description and forDomain lines, and the url label. */
  lemma TemplateMiddle(e: string, i: string, d: string, f: string, u: string)
    requires '\n' !in e && '\n' !in i && '\n' !in d && '\n' !in f
    ensures SplitOn(Interleave(RecordTemplate[..5], [e, i, d, f, u][..4]), '\n') ==
      [ "", "    " + e + " (id: " + i + ")", "      description: " + d, "      forDomain: " + f, "      url: " ]
  {
    var t, v := RecordTemplate, [e, i, d, f, u];
    var l1 := "    " + e + " (id: " + i + ")";
    TemplateHead(e, i, d, f, u);
    var s2 := Interleave(t[..3], v[..2]);
    InterleaveStep(t, v, 2);
    var s3 := Interleave(t[..4], v[..3]);
    assert s3 == s2 + d + ("\n" + "      forDomain: ");
    NewlinePiece(s2, d, "      forDomain: ", ["", l1, "      description: "]);
    InterleaveStep(t, v, 3);
    var s4 := Interleave(t[..5], v[..4]);
    assert s4 == s3 + f + ("\n" + "      url: ");
    NewlinePiece(s3, f, "      url: ", ["", l1, "      description: " + d, "      forDomain: "]);
  }


  /** The first two lines of the template text, and the start of the third. */
  lemma TemplateHead(e: string, i: string, d: string, f: string, u: string)
    requires '\n' !in e && '\n' !in i
    ensures SplitOn(Interleave(RecordTemplate[..3], [e, i, d, f, u][..2]), '\n') ==
      [ "", "    " + e + " (id: " + i + ")", "      description: " ]
  {
    var t, v := RecordTemplate, [e, i, d, f, u];
    TemplateStart(e, i, d, f, u);
    InterleaveStep(t, v, 1);
    var s1 := Interleave(t[..2], v[..1]);
    var s2 := Interleave(t[..3], v[..2]);
    assert s2 == s1 + i + (")" + ("\n" + "      description: "));
    PieceSplit(s1, i, ")", "      description: ", ["", "    " + e + " (id: "]);
  }

  /** The template up to the id: an empty line, then the e-mail line so far. */
  lemma TemplateStart(e: string, i: string, d: string, f: string, u: string)
    requires '\n' !in e
    ensures SplitOn(Interleave(RecordTemplate[..2], [e, i, d, f, u][..1]), '\n') == [ "", "    " + e + " (id: " ]
  {
    var t, v := RecordTemplate, [e, i, d, f, u];
    var s0 := Interleave(t[..1], v[..0]);
    assert s0 == "" + "" + ("\n" + "    ");
    assert SplitOn("", '\n') == [""];
    NewlinePiece("", "", "    ", [""]);
    InterleaveStep(t, v, 0);
    var s1 := Interleave(t[..2], v[..1]);
    assert s1 == s0 + e + " (id: ";
    PieceSplit(s0, e, " (id: ", "", ["", "    "]);
  }


  /** Appending a value, a newline and a text without newline to a split text. */
  lemma NewlinePiece(s: string, val: string, tail: string, before: seq<string>)
    requires SplitOn(s, '\n') == before
    requires '\n' !in val && '\n' !in tail
    ensures SplitOn(s + val + ("\n" + tail), '\n') == before[..|before| - 1] + [before[|before| - 1] + val, tail]
  {
    SplitExtend(s, val, '\n');
    SplitNewPart(s + val, tail, '\n');
  }

  /**
   * Appending a value and a template piece `lead + "\n" + tail` to a split
   * text (or a value and `lead` alone).
   */
  lemma PieceSplit(s: string, val: string, lead: string, tail: string, before: seq<string>)
    requires SplitOn(s, '\n') == before
    requires '\n' !in val && '\n' !in lead && '\n' !in tail
    ensures SplitOn(s + val + (lead + ("\n" + tail)), '\n') ==
      before[..|before| - 1] + [before[|before| - 1] + val + lead, tail]
    ensures SplitOn(s + val + lead, '\n') == before[..|before| - 1] + [before[|before| - 1] + val + lead]
  {
    assert '\n' !in val + lead;
    SplitExtend(s, val + lead, '\n');
    assert s + val + lead == s + (val + lead);
    assert before[|before| - 1] + val + lead == before[|before| - 1] + (val + lead);
    assert s + val + (lead + ("\n" + tail)) == (s + val + lead) + ("\n" + tail);
    SplitNewPart(s + val + lead, tail, '\n');
  }

  lemma NoTerminatorNoNewline(s: string)
    requires NoTerminator(s)
    ensures '\n' !in s
  {
    forall i | 0 <= i < |s| ensures s[i] != '\n' {
      assert !IsTerminator(s[i]);
    }
  }

  /** Removing a four-space indent that a line starts with drops exactly those four characters. */
  lemma StripIndent(line: string)
    requires |line| >= 4 && line[..4] == "    "
    ensures ReplaceFirst(line, "    ", "") == line[4..]
  {
    assert OccursAt(line, "    ", 0);
  }

  /** `toString` lays a serializable record out as its four lines. */
  lemma ToStringLines(rec: MaskedEmail)
    requires Serializable(rec)
    ensures ToString(rec) == Join(RecordLines(rec), "\n")
  {
    FormatsRecord(EmailText(rec), IdText(rec), DescriptionText(rec), ForDomainText(rec), UrlText(rec));
  }

  /** `fmt` on the `toString` template gives the four record lines. */
  lemma FormatsRecord(e: string, i: string, d: string, f: string, u: string)
    requires e != [] && !IsSpace(e[0]) && NoTerminator(e) && NoTerminator(i)
    requires '\n' !in d && '\n' !in f && '\n' !in u && (u == [] || !IsSpace(u[|u| - 1]))
    ensures Formatted(RecordTemplate, [e, i, d, f, u]) == Join(LinesOf(e, i, d, f, u), "\n")
  {
    var first := e + " (id: " + i + ")";
    var lines := RecordNonEmpty(e, i, d, f, u);
    HeaderTextNoTerminator(e, i);
    assert first[0] == e[0];
    ShownRecord(first, d, f, u);
    TrimRecord(first, d, f, u);
    FormattedFrom(RecordTemplate, [e, i, d, f, u], lines);
  }

  /** The first `filter` of `fmt` on the record template drops only the empty first line. */
  lemma RecordNonEmpty(e: string, i: string, d: string, f: string, u: string) returns (lines: seq<string>)
    requires NoTerminator(e) && NoTerminator(i) && '\n' !in d && '\n' !in f && '\n' !in u
    ensures lines == ["    " + (e + " (id: " + i + ")"), "      description: " + d, "      forDomain: " + f, "      url: " + u, "  "]
    ensures Filter(SplitOn(Interleave(RecordTemplate, [e, i, d, f, u]), '\n'), NonEmpty) == lines
  {
    NoTerminatorNoNewline(e);
    NoTerminatorNoNewline(i);
    TemplateSplit(e, i, d, f, u);
    var l1, l2, l3, l4 := "    " + e + " (id: " + i + ")", "      description: " + d, "      forDomain: " + f, "      url: " + u;
    var parts := ["", l1, l2, l3, l4, "  "];
    lines := [l1, l2, l3, l4, "  "];
    assert l1 == "    " + (e + " (id: " + i + ")");
    assert Filter(parts, NonEmpty) == lines by {
      FilterAll(parts[1..], NonEmpty);
    }
  }

  /** De-indenting the record lines and dropping blank ones leaves the four record lines. */
  lemma ShownRecord(first: string, d: string, f: string, u: string)
    requires first != [] && !IsSpace(first[0]) && NoTerminator(first)
    ensures Filter(Dedent(["    " + first, "      description: " + d, "      forDomain: " + f, "      url: " + u, "  "]), NonBlank)
      == [first, "  description: " + d, "  forDomain: " + f, "  url: " + u]
  {
    var kept := DedentRecord(first, d, f, u);
    KeptNonBlank(first, d, f, u);
    forall j | 0 <= j < 4 ensures NonBlank(kept[j]) {
      if j == 0 {
      } else if j == 1 {
      } else if j == 2 {
      }
    }
    DropBlankLast(kept, "  ");
  }

  /** Lines that are not blank followed by a blank one: `filter` drops only the last. */
  lemma DropBlankLast(kept: seq<string>, blank: string)
    requires forall j :: 0 <= j < |kept| ==> NonBlank(kept[j])
    requires AllSpace(blank)
    ensures Filter(kept + [blank], NonBlank) == kept
  {
    FilterAppend(kept, [blank], NonBlank);
    FilterAll(kept, NonBlank);
    assert Filter([blank], NonBlank) == [];
  }

  /** `fmt` after the first `filter`: the rest of the pipeline on the non-empty lines. */
  lemma FormattedFrom(strs: seq<string>, vars: seq<string>, lines: seq<string>)
    requires |strs| == |vars| + 1
    requires Filter(SplitOn(Interleave(strs, vars), '\n'), NonEmpty) == lines
    ensures Formatted(strs, vars) == Trim(Join(Filter(Dedent(lines), NonBlank), "\n"))
  {
  }

  /** The dedented record lines are not blank, and the last (two spaces) is. */
  lemma KeptNonBlank(first: string, d: string, f: string, u: string)
    requires first != [] && !IsSpace(first[0])
    ensures !AllSpace(first) && !AllSpace("  description: " + d) && !AllSpace("  forDomain: " + f)
    ensures !AllSpace("  url: " + u) && AllSpace("  ")
    ensures Filter(["  "], NonBlank) == []
  {
    assert ("  description: " + d)[2] == 'd';
    assert ("  forDomain: " + f)[2] == 'f';
    assert ("  url: " + u)[2] == 'u';
  }

  lemma HeaderTextNoTerminator(e: string, i: string)
    requires NoTerminator(e) && NoTerminator(i)
    ensures NoTerminator(e + " (id: " + i + ")")
  {
    var first := e + " (id: " + i + ")";
    forall k | 0 <= k < |first| ensures !IsTerminator(first[k]) {
      if k < |e| {
        assert first[k] == e[k];
      } else if k >= |e| + 6 && k < |e| + 6 + |i| {
        assert first[k] == i[k - |e| - 6];
      }
    }
  }

  /** A four-part join, written out. */
  lemma Join4(a: string, b: string, c: string, d: string, sep: string)
    ensures Join([a, b, c, d], sep) == a + sep + b + sep + c + sep + d
  {
    var ls := [a, b, c, d];
    assert ls[1..] == [b, c, d] && ls[1..][1..] == [c, d] && ls[1..][1..][1..] == [d];
    assert Join([c, d], sep) == c + sep + d;
    assert Join([b, c, d], sep) == b + sep + (c + sep + d) == b + sep + c + sep + d;
    assert Join(ls, sep) == a + sep + (b + sep + c + sep + d) == a + sep + b + sep + c + sep + d;
  }

  /** The four record lines, as `toString` lays them out. */
  function LinesOf(e: string, i: string, d: string, f: string, u: string): seq<string>
  {
    [ e + " (id: " + i + ")", "  description: " + d, "  forDomain: " + f, "  url:" + (if u == [] then "" else " " + u) ]
  }

  /** The `map` step of `fmt` on the record template: four spaces come off every indented line. */
  lemma DedentRecord(first: string, d: string, f: string, u: string) returns (kept: seq<string>)
    requires first != [] && !IsSpace(first[0]) && NoTerminator(first)
    ensures kept == [first, "  description: " + d, "  forDomain: " + f, "  url: " + u]
    ensures Dedent(["    " + first, "      description: " + d, "      forDomain: " + f, "      url: " + u, "  "])
      == kept + ["  "]
  {
    var l1, l2, l3 := "  description: " + d, "  forDomain: " + f, "  url: " + u;
    kept := [first, l1, l2, l3];
    var lines := ["    " + first, "    " + l1, "    " + l2, "    " + l3, "  "];
    var out := [first, l1, l2, l3, "  "];
    Reindented(first, d, f, u);
    IndentOfRecord(first);
    forall j | 0 <= j < 5 ensures out[j] == ReplaceFirst(lines[j], IndentOf(lines[0]), "") {
      if j < 4 {
        StripIndentOf(out[j]);
      } else {
        ShortLineKept("  ", "    ");
      }
    }
    DedentOf(lines, out);
  }

  /** The field lines of the template are the record's field lines indented by four more spaces. */
  lemma Reindented(first: string, d: string, f: string, u: string)
    ensures ["    " + first, "      description: " + d, "      forDomain: " + f, "      url: " + u, "  "] ==
      ["    " + first, "    " + ("  description: " + d), "    " + ("  forDomain: " + f), "    " + ("  url: " + u), "  "]
  {
    assert "      description: " + d == "    " + ("  description: " + d);
    assert "      forDomain: " + f == "    " + ("  forDomain: " + f);
    assert "      url: " + u == "    " + ("  url: " + u);
  }

  /** Four spaces and a text: the first occurrence of four spaces is at the start. */
  lemma StripIndentOf(rest: string)
    ensures ReplaceFirst("    " + rest, "    ", "") == rest
  {
    StripIndent("    " + rest);
    assert ("    " + rest)[4..] == rest;
  }

  /** A line shorter than the indent keeps all of it. */
  lemma ShortLineKept(line: string, indent: string)
    requires |line| < |indent|
    ensures ReplaceFirst(line, indent, "") == line
  {
  }


  /** The final `trim` of `fmt` on the record lines: only the space after an empty url goes. */
  lemma TrimRecord(first: string, d: string, f: string, u: string)
    requires first != [] && !IsSpace(first[0])
    requires u == [] || !IsSpace(u[|u| - 1])
    ensures Trim(Join([first, "  description: " + d, "  forDomain: " + f, "  url: " + u], "\n"))
      == Join([first, "  description: " + d, "  forDomain: " + f, "  url:" + (if u == [] then "" else " " + u)], "\n")
  {
    Join4(first, "  description: " + d, "  forDomain: " + f, "  url: " + u, "\n");
    Join4(first, "  description: " + d, "  forDomain: " + f, "  url:" + (if u == [] then "" else " " + u), "\n");
    TrimUrlLine(first + "\n" + ("  description: " + d) + "\n" + ("  forDomain: " + f) + "\n", first[0], u);
  }

  lemma TrimUrlLine(body: string, c: char, u: string)
    requires body != [] && body[0] == c && !IsSpace(c)
    requires u == [] || !IsSpace(u[|u| - 1])
    ensures Trim(body + ("  url: " + u)) == body + ("  url:" + (if u == [] then "" else " " + u))
  {
    var last := "  url:" + (if u == [] then "" else " " + u);
    assert (body + last)[0] == c;
    if u == [] {
      assert body + ("  url: " + u) == (body + last) + " ";
      TrimKeep(body + last, " ");
    } else {
      assert body + ("  url: " + u) == (body + last) + "";
      TrimKeep(body + last, "");
    }
  }

  /** The indent `fmt` takes from the first line of a record: four spaces. */
  lemma IndentOfRecord(first: string)
    requires first != [] && !IsSpace(first[0]) && NoTerminator(first)
    ensures IndentOf("    " + first) == "    "
  {
    var line := "    " + first;
    SkipSpaceAt(line, 0, 4);
    assert line[4..] == first;
  }

  /** The `[k/n] ` prefix of the k-th (from zero) of n blocks in `edit`. */
  function Counter(k: nat, n: nat): string
  {
    "[" + Decimal(k + 1) + "/" + Decimal(n) + "] "
  }

  /** The blocks of the editor text: each record's `toString`, numbered. */
  function Blocks(records: seq<MaskedEmail>): seq<string>
  {
    seq(|records|, k requires 0 <= k < |records| => Counter(k, |records|) + ToString(records[k]))
  }

  /** The text `edit` writes for the editor: the numbered blocks joined by a blank line. */
  function Serialize(records: seq<MaskedEmail>): string
  {
    Join(Blocks(records), "\n\n")
  }

  /** The lines of one numbered block: the header line, then the three field lines. */
  function BlockLines(k: nat, n: nat, rec: MaskedEmail): seq<string>
  {
    var ls := RecordLines(rec);
    [Counter(k, n) + ls[0], ls[1], ls[2], ls[3]]
  }

  /** Lists of lines stacked with one empty line between neighbours. */
  function Stack(groups: seq<seq<string>>): seq<string>
  {
    if |groups| == 0 then [] else if |groups| == 1 then groups[0] else groups[0] + [""] + Stack(groups[1..])
  }

  /** The lines of the editor text for records k.. of n. */
  function LayoutFrom(records: seq<MaskedEmail>, k: nat): seq<string>
    requires k <= |records|
    decreases |records| - k
  {
    if k == |records| then []
    else if k == |records| - 1 then BlockLines(k, |records|, records[k])
    else BlockLines(k, |records|, records[k]) + [""] + LayoutFrom(records, k + 1)
  }

  /** The lines of the editor text: the blocks, in record order, separated by one empty line. */
  function Layout(records: seq<MaskedEmail>): seq<string>
  {
    if records == [] then [""] else LayoutFrom(records, 0)
  }

  /** The counter is `[`, digits, `/`, digits, `]` and a space: no white space but the last, and no colon. */
  lemma CounterChars(k: nat, n: nat)
    ensures |Counter(k, n)| >= 2 && Counter(k, n)[0] == '[' && Counter(k, n)[|Counter(k, n)| - 1] == ' '
    ensures forall i :: 0 <= i < |Counter(k, n)| - 1 ==> !IsSpace(Counter(k, n)[i]) && Counter(k, n)[i] != ':'
    ensures '\n' !in Counter(k, n) && NoTerminator(Counter(k, n))
  {
    var c := Counter(k, n);
    var a, b := Decimal(k + 1), Decimal(n);
    assert c == "[" + a + "/" + b + "] ";
    forall i | 0 <= i < |c| - 1 ensures !IsSpace(c[i]) && c[i] != ':' {
      if 1 <= i < 1 + |a| {
        assert c[i] == a[i - 1];
      } else if 2 + |a| <= i < 2 + |a| + |b| {
        assert c[i] == b[i - 2 - |a|];
      }
    }
    forall i | 0 <= i < |c| ensures c[i] != '\n' && !IsTerminator(c[i]) {
      assert i < |c| - 1 ==> !IsSpace(c[i]);
    }
  }

  /** One numbered block splits into its header line and its three field lines. */
  lemma BlockSplit(k: nat, n: nat, rec: MaskedEmail)
    requires Serializable(rec)
    ensures SplitOn(Counter(k, n) + ToString(rec), '\n') == BlockLines(k, n, rec)
  {
    ToStringLines(rec);
    CounterChars(k, n);
    NoTerminatorNoNewline(EmailText(rec));
    NoTerminatorNoNewline(IdText(rec));
    var ls := RecordLines(rec);
    LinesNoNewline(Counter(k, n), EmailText(rec), IdText(rec), DescriptionText(rec), ForDomainText(rec), UrlText(rec));
    assert ls == [ls[0], ls[1], ls[2], ls[3]];
    Prefixed4Split(Counter(k, n), ls[0], ls[1], ls[2], ls[3]);
  }

  lemma LinesNoNewline(prefix: string, e: string, i: string, d: string, f: string, u: string)
    requires '\n' !in prefix && '\n' !in e && '\n' !in i && '\n' !in d && '\n' !in f && '\n' !in u
    ensures '\n' !in prefix + LinesOf(e, i, d, f, u)[0]
    ensures forall k :: 1 <= k < 4 ==> '\n' !in LinesOf(e, i, d, f, u)[k]
  {
    var ls := LinesOf(e, i, d, f, u);
    NoSepConcat(e, " (id: ", '\n');
    NoSepConcat(e + " (id: ", i, '\n');
    NoSepConcat(e + " (id: " + i, ")", '\n');
    NoSepConcat(prefix, ls[0], '\n');
    NoSepConcat("  description: ", d, '\n');
    NoSepConcat("  forDomain: ", f, '\n');
    NoSepConcat(" ", u, '\n');
    NoSepConcat("  url:", if u == [] then "" else " " + u, '\n');
  }

  lemma Prefixed4Split(prefix: string, a: string, b: string, c: string, d: string)
    requires '\n' !in prefix + a && '\n' !in b && '\n' !in c && '\n' !in d
    ensures SplitOn(prefix + Join([a, b, c, d], "\n"), '\n') == [prefix + a, b, c, d]
  {
    var ls := [a, b, c, d];
    JoinPrefix(prefix, ls, "\n");
    assert [prefix + ls[0]] + ls[1..] == [prefix + a, b, c, d];
    SplitJoin([prefix + a, b, c, d], '\n');
  }

  lemma NoSepConcat(a: string, b: string, sep: char)
    requires sep !in a && sep !in b
    ensures sep !in a + b
  {
    forall k | 0 <= k < |a + b| ensures (a + b)[k] != sep {
      if k < |a| {
        assert (a + b)[k] == a[k];
      } else {
        assert (a + b)[k] == b[k - |a|];
      }
    }
  }

  /**
   * The editor text of serializable records, line by line: for record k of
   * n the header `[k/n] <email> (id: <id>)`, then its description, forDomain
   * and url lines, and one empty line between blocks.
   */
  lemma SerializedLayout(records: seq<MaskedEmail>)
    requires forall k :: 0 <= k < |records| ==> Serializable(records[k])
    ensures SplitOn(Serialize(records), '\n') == Layout(records)
  {
    if records != [] {
      var n := |records|;
      var blocks := Blocks(records);
      var groups := seq(n, j requires 0 <= j < n => BlockLines(j, n, records[j]));
      forall j | 0 <= j < n ensures SplitOn(blocks[j], '\n') == groups[j] {
        BlockSplit(j, n, records[j]);
      }
      SplitBlankJoined(blocks, groups);
      assert groups[0..] == groups;
      StackLayout(records, groups, 0);
    }
  }

  /** Texts joined by a blank line split into their own lines stacked with an empty line between. */
  lemma {:induction false} SplitBlankJoined(blocks: seq<string>, groups: seq<seq<string>>)
    requires |blocks| == |groups| >= 1
    requires forall j :: 0 <= j < |blocks| ==> SplitOn(blocks[j], '\n') == groups[j]
    ensures SplitOn(Join(blocks, "\n\n"), '\n') == Stack(groups)
  {
    if |blocks| > 1 {
      SplitBlankJoined(blocks[1..], groups[1..]);
      BlankJoinSplit(blocks[0], Join(blocks[1..], "\n\n"));
    }
  }

  /** Stacking the block lines of records k.. gives `LayoutFrom`. */
  lemma {:induction false} StackLayout(records: seq<MaskedEmail>, groups: seq<seq<string>>, k: nat)
    requires k < |records| == |groups|
    requires forall j :: 0 <= j < |records| ==> groups[j] == BlockLines(j, |records|, records[j])
    decreases |records| - k
    ensures Stack(groups[k..]) == LayoutFrom(records, k)
  {
    if k < |records| - 1 {
      StackLayout(records, groups, k + 1);
      assert groups[k..][1..] == groups[k + 1..];
    }
  }

  /** Splitting two texts joined by a blank line: the first text's lines, an empty line, the second's lines. */
  lemma BlankJoinSplit(a: string, rest: string)
    ensures SplitOn(a + "\n\n" + rest, '\n') == SplitOn(a, '\n') + [""] + SplitOn(rest, '\n')
  {
    var tail := ['\n'] + rest;
    assert a + "\n\n" + rest == a + ['\n'] + tail;
    SplitAppend(a, tail, '\n');
    assert tail[1..] == rest;
  }


}
