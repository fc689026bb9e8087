/**
 * `edit` end to end (scripts/masked-email.js): the records are serialized,
 * the user edits the description, forDomain and url lines, and `parse`
 * reads the text back against the original records. The editor itself is
 * not modelled: the edited text is taken to be the serialization of the
 * edited records.
 *
 * The main theorem says that the update object is then exactly the map
 * from the id of every record whose editable fields changed to its new
 * fields; with no edits it is empty.
 */
module EditRoundTrip {
  import opened JsValues
  import opened JsText
  import opened LineGrammar
  import opened Serializer
  import opened Parser

  /** The property `key` holds a string. */
  predicate IsStr(rec: MaskedEmail, key: string)
  {
    Prop(rec, key).Some? && Prop(rec, key).value.Str?
  }

  /** A field value the field-line pattern gives back unchanged: one line, no leading white space. */
  predicate SingleLine(s: string)
  {
    NoTerminator(s) && (s == [] || !IsSpace(s[0]))
  }

  /**
   * A record whose block the editor text carries faithfully: the e-mail
   * text fits the header line, the id is a word, description and forDomain
   * are single-line strings, and the url is present, either null or a
   * non-empty single line without trailing white space.
   */
  predicate Editable(rec: MaskedEmail)
  {
    var e := EmailText(rec);
    && e != [] && !IsSpace(e[0]) && NoTerminator(e)
    && IsStr(rec, "id") && IdText(rec) != [] && NoSpace(IdText(rec))
    && IsStr(rec, "description") && SingleLine(DescriptionText(rec))
    && IsStr(rec, "forDomain") && SingleLine(ForDomainText(rec))
    && "url" in rec
    && (rec["url"] == Null ||
        (rec["url"].Str? && var u := rec["url"].s; u != [] && SingleLine(u) && !IsSpace(u[|u| - 1])))
  }

  /** The value of `key`, null when the record lacks it. */
  function Field(rec: MaskedEmail, key: string): Value
  {
    if key in rec then rec[key] else Null
  }

  /** The field map `parse` builds from the block of an editable record. */
  function BlockOf(rec: MaskedEmail): FieldMap
  {
    map["description" := Field(rec, "description"), "forDomain" := Field(rec, "forDomain"), "url" := Field(rec, "url")]
  }

  /** The originals and the edited records are the same records: same count, same ids, in the same order. */
  predicate SameIds(original: seq<MaskedEmail>, edited: seq<MaskedEmail>)
  {
    |original| == |edited| && forall k :: 0 <= k < |original| ==> Prop(original[k], "id") == Prop(edited[k], "id")
  }

  predicate DistinctIds(records: seq<MaskedEmail>)
  {
    forall j, k :: 0 <= j < k < |records| ==> Prop(records[j], "id") != Prop(records[k], "id")
  }

  predicate AllEditable(records: seq<MaskedEmail>)
  {
    forall k :: 0 <= k < |records| ==> Editable(records[k])
  }

  /**
   * The setting of an edit: the edited records are the originals, in the
   * same order, with distinct ids, and each is editable.
   */
  predicate Aligned(original: seq<MaskedEmail>, edited: seq<MaskedEmail>)
  {
    SameIds(original, edited) && DistinctIds(original) && AllEditable(edited)
  }

  /** The update object that records 0..n-1 call for: each changed record's id, with its new fields. */
  function ChangesUpTo(original: seq<MaskedEmail>, edited: seq<MaskedEmail>, n: nat): Updates
    requires n <= |original| && n <= |edited|
  {
    if n == 0 then map[]
    else
      var prev := ChangesUpTo(original, edited, n - 1);
      var block := BlockOf(edited[n - 1]);
      if Changed(original[n - 1], block) then prev[IdText(edited[n - 1]) := block] else prev
  }

  /** Record k is edited: its new block changes its original. */
  predicate EditedAt(original: seq<MaskedEmail>, edited: seq<MaskedEmail>, k: int)
  {
    0 <= k < |edited| && k < |original| && Changed(original[k], BlockOf(edited[k]))
  }

  /** The update object holds an id exactly when some edited record among the first n has it. */
  lemma {:induction false} ChangesUpToKeys(original: seq<MaskedEmail>, edited: seq<MaskedEmail>, n: nat, id: string)
    requires n <= |original| && n <= |edited|
    ensures id in ChangesUpTo(original, edited, n) <==>
      exists k :: 0 <= k < n && EditedAt(original, edited, k) && IdText(edited[k]) == id
  {
    if n > 0 {
      ChangesUpToKeys(original, edited, n - 1, id);
      if EditedAt(original, edited, n - 1) && IdText(edited[n - 1]) == id {
        assert id in ChangesUpTo(original, edited, n);
      }
    }
  }

  /** Under distinct string ids, an edited record's entry is its whole edited block. */
  lemma {:induction false} ChangesUpToValue(original: seq<MaskedEmail>, edited: seq<MaskedEmail>, n: nat, k: nat)
    requires n <= |original| && n <= |edited| && StringIds(edited) && DistinctIds(edited)
    requires k < n && EditedAt(original, edited, k)
    ensures IdText(edited[k]) in ChangesUpTo(original, edited, n)
    ensures ChangesUpTo(original, edited, n)[IdText(edited[k])] == BlockOf(edited[k])
  {
    var prev := ChangesUpTo(original, edited, n - 1);
    var id := IdText(edited[k]);
    if k < n - 1 {
      ChangesUpToValue(original, edited, n - 1, k);
      IdsDiffer(edited[k], edited[n - 1]);
      assert ChangesUpTo(original, edited, n)[id] == prev[id];
    } else {
      assert ChangesUpTo(original, edited, n) == prev[id := BlockOf(edited[k])];
    }
  }

  /** Every record has a string id. */
  predicate StringIds(records: seq<MaskedEmail>)
  {
    forall k :: 0 <= k < |records| ==> IsStr(records[k], "id")
  }

  /** Records with different string ids have different id texts. */
  lemma IdsDiffer(a: MaskedEmail, b: MaskedEmail)
    requires IsStr(a, "id") && IsStr(b, "id") && Prop(a, "id") != Prop(b, "id")
    ensures IdText(a) != IdText(b)
  {
  }

  /** A block changes its record exactly when one of the three editable fields differs. */
  lemma ChangedIffEdited(original: MaskedEmail, rec: MaskedEmail)
    requires Editable(rec)
    ensures Changed(original, BlockOf(rec)) <==>
      Prop(original, "description") != Prop(rec, "description") ||
      Prop(original, "forDomain") != Prop(rec, "forDomain") ||
      Prop(original, "url") != Prop(rec, "url")
  {
    var b := BlockOf(rec);
    if Prop(original, "description") != Prop(rec, "description") {
      assert "description" in b && Prop(original, "description") != Some(b["description"]);
    } else if Prop(original, "forDomain") != Prop(rec, "forDomain") {
      assert "forDomain" in b && Prop(original, "forDomain") != Some(b["forDomain"]);
    } else if Prop(original, "url") != Prop(rec, "url") {
      assert "url" in b && Prop(original, "url") != Some(b["url"]);
    }
  }

  /** The state after reading the lines of block k: the cursor on record k-1, block k open. */
  function Pending(original: seq<MaskedEmail>, edited: seq<MaskedEmail>, k: nat): ParseState
    requires k < |original| && k < |edited|
  {
    ParseState(if k == 0 then 0 else k - 1, Some(IdText(edited[k])), BlockOf(edited[k]), ChangesUpTo(original, edited, k))
  }

  /** The state before the lines of block k; with k the number of blocks, the state at the end of the text. */
  function Before(original: seq<MaskedEmail>, edited: seq<MaskedEmail>, k: nat): ParseState
    requires k <= |original| && k <= |edited|
  {
    if k == 0 then Initial else Pending(original, edited, k - 1)
  }

  /** An editable record is laid out by `toString` as four lines. */
  lemma EditableSerializable(rec: MaskedEmail)
    requires Editable(rec)
    ensures Serializable(rec)
  {
    var i := IdText(rec);
    forall j | 0 <= j < |i| ensures !IsTerminator(i[j]) {
      assert !IsSpace(i[j]);
    }
    NewlineFree(DescriptionText(rec));
    NewlineFree(ForDomainText(rec));
    NewlineFree(UrlText(rec));
  }

  lemma NewlineFree(s: string)
    requires NoTerminator(s)
    ensures '\n' !in s
  {
    forall j | 0 <= j < |s| ensures s[j] != '\n' {
      assert !IsTerminator(s[j]);
    }
  }

  /** With distinct ids, the seek for block j's id from the cursor before it stops at record j. */
  lemma SeekBlock(original: seq<MaskedEmail>, edited: seq<MaskedEmail>, j: nat)
    requires j < |original| && Aligned(original, edited)
    ensures SeekFrom(original, IdText(edited[j]), if j == 0 then 0 else j - 1) == Some(j)
  {
    var id := IdText(edited[j]);
    assert HasId(original[j], id);
    forall i | (if j == 0 then 0 else j - 1) <= i < j ensures !HasId(original[i], id) {
      assert Prop(original[i], "id") != Prop(original[j], "id");
    }
  }

  /**
   * The flush after block k-1 finds record k-1, moves the cursor there and
   * enters block k-1 when it changes that record.
   */
  lemma FlushAfter(original: seq<MaskedEmail>, edited: seq<MaskedEmail>, k: nat)
    requires 0 < k <= |original| && Aligned(original, edited)
    ensures Flushed(original, Before(original, edited, k)) ==
      Ok(ParseState(k - 1, None, map[], ChangesUpTo(original, edited, k)))
  {
    var j := k - 1;
    var st := Pending(original, edited, j);
    var rec, id := edited[j], IdText(edited[j]);
    var prev := ChangesUpTo(original, edited, j);
    assert Before(original, edited, k) == st;
    assert st.id == Some(id) && st.cursor == (if j == 0 then 0 else j - 1) && st.block == BlockOf(rec) && st.toUpdate == prev;
    SeekBlock(original, edited, j);
    FlushFound(original, st, j);
    if Changed(original[j], BlockOf(rec)) {
      assert ChangesUpTo(original, edited, k) == prev[id := BlockOf(rec)];
      assert Flushed(original, st) == Ok(ParseState(j, None, map[], prev[id := BlockOf(rec)]));
    } else {
      assert ChangesUpTo(original, edited, k) == prev;
      assert Flushed(original, st) == Ok(ParseState(j, None, map[], prev));
    }
  }

  /** The header line of a block opens it: its id is captured, and it is no field line. */
  lemma HeaderLine(k: nat, n: nat, rec: MaskedEmail)
    requires Editable(rec)
    ensures MatchHeader(BlockLines(k, n, rec)[0]) == Some(IdText(rec))
    ensures MatchField(BlockLines(k, n, rec)[0]) == None
  {
    var c, e, i := Counter(k, n), EmailText(rec), IdText(rec);
    var line := BlockLines(k, n, rec)[0];
    CounterChars(k, n);
    var pre := c + e;
    assert line == pre + IdMarker + i + ")";
    assert pre[0] == '[';
    forall j | 0 <= j < |pre| ensures !IsTerminator(pre[j]) {
      if j < |c| {
        assert pre[j] == c[j];
      } else {
        assert pre[j] == e[j - |c|];
      }
    }
    MatchHeaderComplete(line, pre, i);
    // The first word of the line is the counter without its space: it holds no colon.
    assert line[0] == '[';
    SkipSpaceAt(line, 0, 0);
    assert line[|c| - 1] == ' ';
    var w := SkipWord(line, 0);
    forall j | 0 <= j < w ensures FirstWord(line)[j] != ':' {
      assert line[j] == c[j];
    }
    NoColonNoField(line);
  }

  /** The keys of a block are words; the indentation and the gap after the colon are white space. */
  lemma BlockKeys()
    ensures NoSpace("description") && NoSpace("forDomain") && NoSpace("url")
    ensures AllSpace("  ") && AllSpace(" ") && AllSpace("")
  {
    NoSpaceWord("description");
    NoSpaceWord("forDomain");
    NoSpaceWord("url");
  }

  /** A word of ASCII letters holds no white space. */
  lemma NoSpaceWord(w: string)
    requires forall i :: 0 <= i < |w| ==> 'a' <= w[i] <= 'z' || 'A' <= w[i] <= 'Z'
    ensures NoSpace(w)
  {
  }

  /** A description or forDomain line sets that key to the string it shows. */
  lemma TextFieldStep(original: seq<MaskedEmail>, st: ParseState, line: string, key: string, v: string)
    requires NoSpace(key) && |key| >= 1
    requires SingleLine(v) && line == "  " + key + ": " + v
    ensures Step(original, st, line) == Ok(st.(block := st.block[key := FieldValue(key, v)]))
  {
    assert line == "  " + key + ":" + " " + v;
    BlockKeys();
    IndentedNoHeader(line);
    StepField(original, st, line, "  ", key, " ", v);
  }

  /** The description line of a record with a single-line string description sets its description. */
  lemma DescriptionStep(original: seq<MaskedEmail>, st: ParseState, rec: MaskedEmail)
    requires IsStr(rec, "description") && SingleLine(DescriptionText(rec))
    ensures Step(original, st, RecordLines(rec)[1]) == Ok(st.(block := st.block["description" := Field(rec, "description")]))
  {
    var d := DescriptionText(rec);
    assert RecordLines(rec)[1] == "  " + "description" + ": " + d;
    assert FieldValue("description", d) == Field(rec, "description");
    BlockKeys();
    TextFieldStep(original, st, RecordLines(rec)[1], "description", d);
  }

  /** The forDomain line of a record with a single-line string forDomain sets its forDomain. */
  lemma ForDomainStep(original: seq<MaskedEmail>, st: ParseState, rec: MaskedEmail)
    requires IsStr(rec, "forDomain") && SingleLine(ForDomainText(rec))
    ensures Step(original, st, RecordLines(rec)[2]) == Ok(st.(block := st.block["forDomain" := Field(rec, "forDomain")]))
  {
    var f := ForDomainText(rec);
    assert RecordLines(rec)[2] == "  " + "forDomain" + ": " + f;
    assert FieldValue("forDomain", f) == Field(rec, "forDomain");
    BlockKeys();
    TextFieldStep(original, st, RecordLines(rec)[2], "forDomain", f);
  }

  /** The url line sets `url`: null for the empty line, the url otherwise. */
  lemma UrlFieldStep(original: seq<MaskedEmail>, st: ParseState, rec: MaskedEmail)
    requires Editable(rec)
    ensures Step(original, st, RecordLines(rec)[3]) == Ok(st.(block := st.block["url" := Field(rec, "url")]))
  {
    var u := UrlText(rec);
    var line := RecordLines(rec)[3];
    BlockKeys();
    if rec["url"] == Null {
      assert line == "  " + "url" + ":" + "" + "";
      IndentedNoHeader(line);
      StepField(original, st, line, "  ", "url", "", "");
    } else {
      assert line == "  " + "url" + ":" + " " + u;
      IndentedNoHeader(line);
      StepField(original, st, line, "  ", "url", " ", u);
    }
  }

  /** A header line that is no field line flushes the block and opens a new one under its id. */
  lemma HeaderStep(records: seq<MaskedEmail>, st: ParseState, line: string, id: string, s: ParseState)
    requires MatchHeader(line) == Some(id) && MatchField(line) == None
    requires Flushed(records, st) == Ok(s)
    ensures Step(records, st, line) == Ok(s.(id := Some(id)))
  {
  }

  /** Flushing the state before block k closes block k-1, if any. */
  lemma FlushBefore(original: seq<MaskedEmail>, edited: seq<MaskedEmail>, k: nat)
    requires k < |original| && Aligned(original, edited)
    ensures Flushed(original, Before(original, edited, k)) ==
      Ok(ParseState(if k == 0 then 0 else k - 1, None, map[], ChangesUpTo(original, edited, k)))
  {
    if k == 0 {
      FlushFirst(original, edited);
    } else {
      FlushAfter(original, edited, k);
    }
  }

  /** Before the first block nothing is open, so the flush changes nothing. */
  lemma FlushFirst(original: seq<MaskedEmail>, edited: seq<MaskedEmail>)
    requires 0 < |original| && 0 < |edited|
    ensures Flushed(original, Before(original, edited, 0)) == Ok(ParseState(0, None, map[], ChangesUpTo(original, edited, 0)))
  {
  }

  /** Reading the header line of block k flushes block k-1 and opens block k. */
  lemma OpenBlock(original: seq<MaskedEmail>, edited: seq<MaskedEmail>, k: nat)
    requires k < |original| && Aligned(original, edited)
    ensures Step(original, Before(original, edited, k), BlockLines(k, |edited|, edited[k])[0]) ==
      Ok(ParseState(if k == 0 then 0 else k - 1, Some(IdText(edited[k])), map[], ChangesUpTo(original, edited, k)))
  {
    var rec := edited[k];
    HeaderLine(k, |edited|, rec);
    var flushed := ParseState(if k == 0 then 0 else k - 1, None, map[], ChangesUpTo(original, edited, k));
    FlushBefore(original, edited, k);
    HeaderStep(original, Before(original, edited, k), BlockLines(k, |edited|, rec)[0], IdText(rec), flushed);
  }

  /** The three field lines of an editable record's block set its description, forDomain and url, in that order. */
  lemma FieldLines(original: seq<MaskedEmail>, st: ParseState, rec: MaskedEmail) returns (s1: ParseState, s2: ParseState, s3: ParseState)
    requires Editable(rec)
    ensures Step(original, st, RecordLines(rec)[1]) == Ok(s1)
    ensures Step(original, s1, RecordLines(rec)[2]) == Ok(s2)
    ensures Step(original, s2, RecordLines(rec)[3]) == Ok(s3)
    ensures s3 == st.(block := st.block["description" := Field(rec, "description")]
      ["forDomain" := Field(rec, "forDomain")]["url" := Field(rec, "url")])
  {
    DescriptionStep(original, st, rec);
    s1 := st.(block := st.block["description" := Field(rec, "description")]);
    ForDomainStep(original, s1, rec);
    s2 := s1.(block := s1.block["forDomain" := Field(rec, "forDomain")]);
    UrlFieldStep(original, s2, rec);
    s3 := s2.(block := s2.block["url" := Field(rec, "url")]);
  }

  /** Reading the four lines of block k from the state before it gives the state after it. */
  lemma BlockStep(original: seq<MaskedEmail>, edited: seq<MaskedEmail>, k: nat)
    requires k < |original| && Aligned(original, edited)
    ensures Feed(original, Before(original, edited, k), BlockLines(k, |edited|, edited[k])) ==
      Ok(Before(original, edited, k + 1))
  {
    var rec := edited[k];
    OpenBlock(original, edited, k);
    var start := ParseState(if k == 0 then 0 else k - 1, Some(IdText(rec)), map[], ChangesUpTo(original, edited, k));
    assert Editable(rec);
    BlockFeed(original, Before(original, edited, k), k, |edited|, rec, start);
    assert Before(original, edited, k + 1) == Pending(original, edited, k);
  }

  /** After its header opens it, the rest of a numbered block fills in the record's three fields. */
  lemma BlockFeed(original: seq<MaskedEmail>, st: ParseState, k: nat, n: nat, rec: MaskedEmail, start: ParseState)
    requires Editable(rec) && Step(original, st, BlockLines(k, n, rec)[0]) == Ok(start)
    ensures Feed(original, st, BlockLines(k, n, rec)) == Ok(start.(block := start.block["description" := Field(rec, "description")]
      ["forDomain" := Field(rec, "forDomain")]["url" := Field(rec, "url")]))
  {
    var lines := BlockLines(k, n, rec);
    assert lines[1] == RecordLines(rec)[1] && lines[2] == RecordLines(rec)[2] && lines[3] == RecordLines(rec)[3];
    var s1, s2, s3 := FieldLines(original, start, rec);
    FeedFour(original, st, lines, start, s1, s2, s3);
  }


  /** One line fed, then the rest. */
  lemma FeedCons(records: seq<MaskedEmail>, st: ParseState, lines: seq<string>, s: ParseState)
    requires lines != [] && Step(records, st, lines[0]) == Ok(s)
    ensures Feed(records, st, lines) == Feed(records, s, lines[1..])
  {
  }

  /** Four lines fed one by one. */
  lemma FeedFour(records: seq<MaskedEmail>, st: ParseState, lines: seq<string>,
                 s0: ParseState, s1: ParseState, s2: ParseState, s3: ParseState)
    requires |lines| == 4
    requires Step(records, st, lines[0]) == Ok(s0) && Step(records, s0, lines[1]) == Ok(s1)
    requires Step(records, s1, lines[2]) == Ok(s2) && Step(records, s2, lines[3]) == Ok(s3)
    ensures Feed(records, st, lines) == Ok(s3)
  {
    var l1, l2, l3 := lines[1..], lines[2..], lines[3..];
    assert l1[0] == lines[1] && l1[1..] == l2;
    assert l2[0] == lines[2] && l2[1..] == l3;
    assert l3[0] == lines[3] && l3[1..] == [];
    FeedCons(records, st, lines, s0);
    FeedCons(records, s0, l1, s1);
    FeedCons(records, s1, l2, s2);
    FeedCons(records, s2, l3, s3);
  }

  /** The empty line between two blocks changes nothing. */
  lemma BlankStep(records: seq<MaskedEmail>, st: ParseState, rest: seq<string>)
    ensures Feed(records, st, [""] + rest) == Feed(records, st, rest)
  {
    assert MatchHeader("") == None;
    assert MatchField("") == None;
    StepOther(records, st, "");
    FeedCons(records, st, [""] + rest, st);
    assert ([""] + rest)[1..] == rest;
  }

  /** A block, the empty line after it, then the rest. */
  lemma FeedBlocks(records: seq<MaskedEmail>, st: ParseState, block: seq<string>, rest: seq<string>, mid: ParseState)
    requires Feed(records, st, block) == Ok(mid)
    ensures Feed(records, st, block + ([""] + rest)) == Feed(records, mid, rest)
  {
    FeedAppend(records, st, block, [""] + rest);
    BlankStep(records, mid, rest);
  }

  /** Reading the blocks k.. of the editor text ends with the last block open. */
  lemma {:induction false} LayoutStep(original: seq<MaskedEmail>, edited: seq<MaskedEmail>, k: nat)
    requires k < |original| && Aligned(original, edited)
    decreases |original| - k
    ensures Feed(original, Before(original, edited, k), LayoutFrom(edited, k)) ==
      Ok(Before(original, edited, |original|))
  {
    var block := BlockLines(k, |edited|, edited[k]);
    BlockStep(original, edited, k);
    if k < |original| - 1 {
      var rest := LayoutFrom(edited, k + 1);
      assert LayoutFrom(edited, k) == block + ([""] + rest);
      LayoutStep(original, edited, k + 1);
      FeedBlocks(original, Before(original, edited, k), block, rest, Before(original, edited, k + 1));
    }
  }

  /**
   * Reading back the serialization of edited records against the
   * originals gives, for every record whose description, forDomain or url
   * was changed, its id mapped to its three edited fields, and nothing else.
   */
  lemma EditsAreDetected(original: seq<MaskedEmail>, edited: seq<MaskedEmail>)
    requires Aligned(original, edited)
    ensures Parsed(Serialize(edited), original) == Ok(ChangesUpTo(original, edited, |edited|))
  {
    forall k | 0 <= k < |edited| ensures Serializable(edited[k]) {
      EditableSerializable(edited[k]);
    }
    SerializedLayout(edited);
    if edited == [] {
      StepOther(original, Initial, "");
    } else {
      LayoutStep(original, edited, 0);
      FlushAfter(original, edited, |edited|);
    }
  }

  /**
   * What the edit reports: the ids of exactly the records whose description,
   * forDomain or url was changed, each with its three edited fields.
   */
  lemma EditedRecordsReported(original: seq<MaskedEmail>, edited: seq<MaskedEmail>)
    requires Aligned(original, edited)
    ensures Parsed(Serialize(edited), original).Ok?
    ensures forall id :: id in Parsed(Serialize(edited), original).value <==>
      exists k :: EditedAt(original, edited, k) && IdText(edited[k]) == id
    ensures forall k :: EditedAt(original, edited, k) ==>
      Parsed(Serialize(edited), original).value[IdText(edited[k])] == BlockOf(edited[k])
  {
    EditsAreDetected(original, edited);
    var u := ChangesUpTo(original, edited, |edited|);
    assert DistinctIds(edited) by {
      forall j, k | 0 <= j < k < |edited| ensures Prop(edited[j], "id") != Prop(edited[k], "id") {
        assert Prop(original[j], "id") != Prop(original[k], "id");
      }
    }
    forall id ensures id in u <==> exists k :: EditedAt(original, edited, k) && IdText(edited[k]) == id {
      ChangesUpToKeys(original, edited, |edited|, id);
    }
    assert StringIds(edited) by {
      forall k | 0 <= k < |edited| ensures IsStr(edited[k], "id") {
        assert Editable(edited[k]);
      }
    }
    forall k | EditedAt(original, edited, k) ensures IdText(edited[k]) in u && u[IdText(edited[k])] == BlockOf(edited[k]) {
      ChangesUpToValue(original, edited, |edited|, k);
    }
  }

  /** An unedited record changes nothing. */
  lemma UneditedUnchanged(rec: MaskedEmail)
    requires Editable(rec)
    ensures !Changed(rec, BlockOf(rec))
  {
    ChangedIffEdited(rec, rec);
  }

  /**
   * The round trip: serializing editable records with distinct ids and
   * reading the text back unedited gives an empty update object.
   */
  lemma RoundTrip(records: seq<MaskedEmail>)
    requires AllEditable(records) && DistinctIds(records)
    ensures Parsed(Serialize(records), records) == Ok(map[])
  {
    EditsAreDetected(records, records);
    NoChanges(records, |records|);
  }

  lemma {:induction false} NoChanges(records: seq<MaskedEmail>, n: nat)
    requires n <= |records| && AllEditable(records)
    ensures ChangesUpTo(records, records, n) == map[]
  {
    if n > 0 {
      NoChanges(records, n - 1);
      UneditedUnchanged(records[n - 1]);
    }
  }
}
