/**
 * The CSV export of scripts/read.js: one header row of field names and one
 * row per masked e-mail, whose cells are the quoted, escaped field values
 * separated by `;`.
 */
module CsvExport {
  import opened JsValues
  import opened JsText

  /** `FIELDS`: the exported properties, in column order. */
  const Fields: seq<string> :=
    ["id", "email", "createdBy", "createdAt", "description", "forDomain", "url", "state", "lastMessageAt"]

  /** `s.replace(/\\/g, '\\\\')`: every backslash doubled, everything else kept. */
  function DoubleBackslashes(s: string): (r: string)
    ensures '\\' !in s ==> r == s
  {
    if s == [] then []
    else
      assert s == [s[0]] + s[1..];
      (if s[0] == '\\' then "\\\\" else [s[0]]) + DoubleBackslashes(s[1..])
  }

  /** `s.replace(/"/, '\\"')`: the regex has no `g` flag, so a backslash goes before the first quote only. */
  function EscapeFirstQuote(s: string): string
  {
    ReplaceFirst(s, "\"", "\\\"")
  }

  /** The text between the quotes of a cell: the `escaped` of `fieldToCsv`. */
  function Escaped(s: string): string
  {
    EscapeFirstQuote(DoubleBackslashes(s))
  }

  /** `fieldToCsv(field)`: the escaped string in double quotes; null and undefined give an empty cell. */
  function FieldToCsv(field: Option<Value>): string
  {
    match field
    case Some(Str(s)) => "\"" + Escaped(s) + "\""
    case _ => "\"\""
  }

  /** The cells of one data row: `FIELDS.map(f => fieldToCsv(maskedEmail[f]))`. */
  function Cells(rec: MaskedEmail): seq<string>
  {
    seq(|Fields|, i requires 0 <= i < |Fields| => FieldToCsv(Prop(rec, Fields[i])))
  }

  /** One data row: the cells joined by `;`. */
  function DataRow(rec: MaskedEmail): string
  {
    Join(Cells(rec), ";")
  }

  /** The header row: `FIELDS.join(';')`. */
  function HeaderRow(): string
  {
    Join(Fields, ";")
  }

  /**
   * Reads the text between the quotes back: a backslash takes the next
   * character literally, any other character stands for itself.
   */
  function Unescape(t: string): (r: string)
    ensures |r| <= |t|
  {
    if t == [] then []
    else if t[0] == '\\' && |t| >= 2 then [t[1]] + Unescape(t[2..])
    else [t[0]] + Unescape(t[1..])
  }

  /** Doubling adds one backslash per backslash and keeps the count of every other character. */
  lemma {:induction false} DoubledCount(s: string, c: char)
    ensures multiset(DoubleBackslashes(s))[c] == multiset(s)[c] + (if c == '\\' then multiset(s)[c] else 0)
  {
    if s != [] {
      DoubledCount(s[1..], c);
      assert s == [s[0]] + s[1..];
    }
  }

  /** Doubling lengthens a text by its number of backslashes. */
  lemma {:induction false} DoubledLength(s: string)
    ensures |DoubleBackslashes(s)| == |s| + multiset(s)['\\']
  {
    if s != [] {
      DoubledLength(s[1..]);
      assert s == [s[0]] + s[1..];
    }
  }

  /** Doubling distributes over concatenation. */
  lemma {:induction false} DoubleAppend(a: string, b: string)
    ensures DoubleBackslashes(a + b) == DoubleBackslashes(a) + DoubleBackslashes(b)
  {
    if a == [] {
      assert a + b == b;
    } else {
      assert (a + b)[0] == a[0] && (a + b)[1..] == a[1..] + b;
      DoubleAppend(a[1..], b);
    }
  }

  /** An escaped character reads as itself. */
  lemma UnescapePair(c: char, x: string)
    ensures Unescape(['\\', c] + x) == [c] + Unescape(x)
  {
    var t := ['\\', c] + x;
    assert t[0] == '\\' && t[1] == c && t[2..] == x;
  }

  /** Any character but a backslash reads as itself. */
  lemma UnescapePlain(c: char, x: string)
    requires c != '\\'
    ensures Unescape([c] + x) == [c] + Unescape(x)
  {
    var t := [c] + x;
    assert t[0] == c && t[1..] == x;
  }

  lemma ConcatAssoc(a: string, b: string, c: string)
    ensures a + (b + c) == a + b + c
  {
  }

  /** The doubling of a text that starts with `c`. */
  lemma DoubleCons(c: char, s: string)
    ensures DoubleBackslashes([c] + s) == (if c == '\\' then ['\\', c] else [c]) + DoubleBackslashes(s)
  {
    assert ([c] + s)[0] == c && ([c] + s)[1..] == s;
  }

  /** One character more in front of a doubled text reads back as that character. */
  lemma UnescapeDoubledCons(c: char, s: string, tail: string)
    requires Unescape(DoubleBackslashes(s) + tail) == s + Unescape(tail)
    ensures Unescape(DoubleBackslashes([c] + s) + tail) == [c] + s + Unescape(tail)
  {
    var rest := DoubleBackslashes(s) + tail;
    var pre: string := if c == '\\' then ['\\', c] else [c];
    DoubleCons(c, s);
    ConcatAssoc(pre, DoubleBackslashes(s), tail);
    if c == '\\' {
      UnescapePair(c, rest);
    } else {
      UnescapePlain(c, rest);
    }
    ConcatAssoc([c], s, Unescape(tail));
  }

  /** Unescaping reads a doubled text back to the original, whatever follows it. */
  lemma {:induction false} UnescapeDoubled(s: string, tail: string)
    ensures Unescape(DoubleBackslashes(s) + tail) == s + Unescape(tail)
  {
    if s == [] {
      assert DoubleBackslashes(s) + tail == tail;
    } else {
      UnescapeDoubled(s[1..], tail);
      UnescapeDoubledCons(s[0], s[1..], tail);
      assert s == [s[0]] + s[1..];
    }
  }

  /** A one-character pattern occurs exactly where that character is. */
  lemma OccursAtQuote(t: string, p: nat)
    ensures OccursAt(t, "\"", p) <==> p < |t| && t[p] == '"'
  {
    if p < |t| && t[p] == '"' {
      assert t[p..p + 1] == [t[p]];
    }
  }

  /** The first quote of a text without quotes before position |a| is at |a|. */
  lemma FirstQuoteAt(a: string, b: string)
    requires '"' !in a
    ensures IndexOf(a + "\"" + b, "\"") == Some(|a|)
  {
    var t := a + "\"" + b;
    OccursAtQuote(t, |a|);
    forall p: nat | p < |a| ensures !OccursAt(t, "\"", p) {
      OccursAtQuote(t, p);
      assert t[p] == a[p];
    }
  }

  /**
   * Only the first quote is escaped: the text before it is only doubled,
   * the quote gets one backslash, and the text after it, later quotes
   * included, is only doubled.
   */
  lemma FirstQuoteEscaped(a: string, b: string)
    requires '"' !in a
    ensures Escaped(a + "\"" + b) == DoubleBackslashes(a) + "\\\"" + DoubleBackslashes(b)
  {
    DoubleAppend(a + "\"", b);
    DoubleAppend(a, "\"");
    assert DoubleBackslashes("\"") == "\"";
    NoQuoteDoubled(a);
    ReplaceFirstQuote(DoubleBackslashes(a), DoubleBackslashes(b), "\\\"");
  }

  /** Doubling adds no quote. */
  lemma NoQuoteDoubled(s: string)
    requires '"' !in s
    ensures '"' !in DoubleBackslashes(s)
  {
    DoubledCount(s, '"');
  }

  /** `replace` with a quote pattern rewrites the first quote only. */
  lemma ReplaceFirstQuote(a: string, b: string, rep: string)
    requires '"' !in a
    ensures ReplaceFirst(a + "\"" + b, "\"", rep) == a + rep + b
  {
    FirstQuoteAt(a, b);
    var t := a + "\"" + b;
    assert t[..|a|] == a && t[|a| + 1..] == b;
  }

  /** Without a quote, the text is only doubled. */
  lemma NoQuoteEscaped(s: string)
    requires '"' !in s
    ensures Escaped(s) == DoubleBackslashes(s)
  {
    var d := DoubleBackslashes(s);
    DoubledCount(s, '"');
    forall p: nat ensures !OccursAt(d, "\"", p) {
      OccursAtQuote(d, p);
    }
  }

  /** Splits a text at its first quote. */
  lemma SplitAtFirstQuote(s: string) returns (a: string, b: string)
    requires '"' in s
    ensures s == a + "\"" + b && '"' !in a
  {
    var q :| 0 <= q < |s| && s[q] == '"';
    var k := 0;
    while s[k] != '"'
      invariant 0 <= k <= q && '"' !in s[..k]
      decreases q - k
    {
      assert s[..k + 1] == s[..k] + [s[k]];
      k := k + 1;
    }
    a, b := s[..k], s[k + 1..];
    assert s == s[..k] + [s[k]] + s[k + 1..];
  }

  /** Unescaping the text escaped around the first quote gives the quote back. */
  lemma UnescapeQuoted(a: string, b: string)
    ensures Unescape(DoubleBackslashes(a) + "\\\"" + DoubleBackslashes(b)) == a + "\"" + b
  {
    var da, db := DoubleBackslashes(a), DoubleBackslashes(b);
    var tail := ['\\', '"'] + db;
    assert da + "\\\"" + db == da + tail;
    UnescapeDoubled(a, tail);
    UnescapePair('"', db);
    UnescapeDoubledAll(b);
    ConcatAssoc(a, "\"", b);
  }

  /** Unescaping reads a doubled text back to the original. */
  lemma UnescapeDoubledAll(s: string)
    ensures Unescape(DoubleBackslashes(s)) == s
  {
    UnescapeDoubled(s, []);
    assert DoubleBackslashes(s) + [] == DoubleBackslashes(s) && s + [] == s;
  }

  /** The cell's inner text reads back to the field value: the escaping loses nothing. */
  lemma UnescapeEscaped(s: string)
    ensures Unescape(Escaped(s)) == s
  {
    if '"' in s {
      var a, b := SplitAtFirstQuote(s);
      FirstQuoteEscaped(a, b);
      UnescapeQuoted(a, b);
    } else {
      NoQuoteEscaped(s);
      UnescapeDoubledAll(s);
    }
  }

  /**
   * The cell's length is the value's, plus one per backslash, plus one if
   * it holds a quote, plus the two enclosing quotes.
   */
  lemma CellLength(s: string)
    ensures |FieldToCsv(Some(Str(s)))| == |s| + multiset(s)['\\'] + (if '"' in s then 1 else 0) + 2
  {
    if '"' in s {
      var a, b := SplitAtFirstQuote(s);
      FirstQuoteEscaped(a, b);
      DoubledLength(a);
      DoubledLength(b);
      assert multiset(s) == multiset(a) + multiset("\"") + multiset(b);
    } else {
      NoQuoteEscaped(s);
      DoubledLength(s);
    }
  }

  /** A value with no backslash and no quote is only wrapped in quotes. */
  lemma PlainCell(s: string)
    requires '\\' !in s && '"' !in s
    ensures FieldToCsv(Some(Str(s))) == "\"" + s + "\""
  {
    NoQuoteEscaped(s);
  }

  /**
   * Every cell starts and ends with a quote; it is the empty cell `""`
   * exactly for null, undefined and the empty string.
   */
  lemma CellShape(field: Option<Value>)
    ensures var cell := FieldToCsv(field);
      |cell| >= 2 && cell[0] == '"' && cell[|cell| - 1] == '"'
    ensures FieldToCsv(field) == "\"\"" <==> field.None? || field == Some(Null) || field == Some(Str(""))
  {
    if field.Some? && field.value.Str? {
      CellLength(field.value.s);
      if field.value.s == "" {
        NoQuoteEscaped("");
      }
    }
  }

  /** Escaping adds backslashes and nothing else: every other character keeps its count. */
  lemma EscapedChars(s: string, c: char)
    requires c != '\\'
    ensures multiset(Escaped(s))[c] == multiset(s)[c]
  {
    if '"' in s {
      var a, b := SplitAtFirstQuote(s);
      FirstQuoteEscaped(a, b);
      DoubledCount(a, c);
      DoubledCount(b, c);
      assert multiset(s) == multiset(a) + multiset("\"") + multiset(b);
    } else {
      NoQuoteEscaped(s);
      DoubledCount(s, c);
    }
  }

  /** A value without `;` gives a cell without `;`. */
  lemma CellNoSeparator(field: Option<Value>)
    requires field.Some? && field.value.Str? ==> ';' !in field.value.s
    ensures ';' !in FieldToCsv(field)
  {
    if field.Some? && field.value.Str? {
      var s := field.value.s;
      EscapedChars(s, ';');
      var cell := FieldToCsv(field);
      assert multiset(cell)[';'] == multiset(Escaped(s))[';'] == 0;
    }
  }

  /**
   * A data row holds the nine cells in `FIELDS` order: splitting it at `;`
   * gives them back when no exported value holds a `;`.
   */
  lemma RowCells(rec: MaskedEmail)
    requires forall i :: 0 <= i < |Fields| && Prop(rec, Fields[i]).Some? && Prop(rec, Fields[i]).value.Str? ==>
      ';' !in Prop(rec, Fields[i]).value.s
    ensures SplitOn(DataRow(rec), ';') == Cells(rec)
  {
    var cells := Cells(rec);
    forall i | 0 <= i < |cells| ensures ';' !in cells[i] {
      CellNoSeparator(Prop(rec, Fields[i]));
    }
    SplitJoin(cells, ';');
  }

  /**
   * Reads a cell back to the value it was made from, taking the empty cell
   * for a missing or null value; the empty string is the one value it
   * cannot tell from those.
   */
  function Unquoted(cell: string): Option<Value>
  {
    if |cell| < 2 || cell == "\"\"" then None
    else Some(Str(Unescape(cell[1..|cell| - 1])))
  }

  /** A cell reads back to its value, except that null and "" both read as missing. */
  lemma CellDecodes(field: Option<Value>)
    requires field != Some(Null) && field != Some(Str(""))
    ensures Unquoted(FieldToCsv(field)) == field
  {
    CellShape(field);
    if field.Some? {
      var s := field.value.s;
      var cell := FieldToCsv(field);
      assert cell[1..|cell| - 1] == Escaped(s);
      UnescapeEscaped(s);
    }
  }

  /** The header row lists the nine field names, split at `;`. */
  lemma HeaderCells()
    ensures SplitOn(HeaderRow(), ';') == Fields
  {
    forall i | 0 <= i < |Fields| ensures ';' !in Fields[i] {
    }
    SplitJoin(Fields, ';');
  }
}
