/**
 * `parse`, its `add` closure and `hasChanged` (scripts/masked-email.js):
 * reading the edited text back line by line, pairing every block with an
 * original record by id, and collecting the blocks that change something.
 *
 * The state `parse` keeps in local variables is a `ParseState`. The
 * functions `Step`, `Feed`, `Flushed` and `Parsed` say what one line, a run
 * of lines, one call of `add` and the whole of `parse` do to it. The methods
 * `Parse`, `Add` and `HasChanged` are the loops of the source, each proved
 * to compute its function.
 */
module Parser {
  import opened JsValues
  import opened JsText
  import opened LineGrammar

  /** The fields of one block of the edited text (`maskedEmail` inside `parse`). */
  type FieldMap = map<string, Value>

  /** The object `parse` returns (`toUpdate`): a field map for every changed id. */
  type Updates = map<string, FieldMap>

  /**
   * The exception `parse` can raise: the cursor ran past the last record
   * while looking for `id`, and `maskedEmails[i].id` read a property of `undefined`.
   */
  datatype ParseError = CorrelationFailure(id: string)

  /** The variables of `parse`: the cursor `i`, the current `id`, the current map, and `toUpdate`. */
  datatype ParseState = ParseState(cursor: nat, id: Option<string>, block: FieldMap, toUpdate: Updates)

  const Initial: ParseState := ParseState(0, None, map[], map[])

  /**
   * `hasChanged(a, b)`: some key of `b` holds a value strictly different from
   * `a`'s. A key `a` lacks reads as `undefined` there, so it always differs.
   */
  predicate Changed(a: MaskedEmail, b: FieldMap)
  {
    exists key :: key in b && Prop(a, key) != Some(b[key])
  }

  /** `hasChanged`: a loop over the keys of `b` that returns at the first difference. */
  method HasChanged(a: MaskedEmail, b: FieldMap) returns (changed: bool)
    ensures changed <==> Changed(a, b)
  {
    var keys := b.Keys;
    while keys != {}
      invariant keys <= b.Keys
      invariant forall key :: key in b && key !in keys ==> Prop(a, key) == Some(b[key])
      decreases keys
    {
      var key :| key in keys;
      if Prop(a, key) != Some(b[key]) {
        return true;
      }
      keys := keys - {key};
    }
    return false;
  }

  /** The first record at or after `from` whose id is `id`. */
  function SeekFrom(records: seq<MaskedEmail>, id: string, from: nat): (r: Option<nat>)
    decreases |records| - from
    ensures r.Some? ==> from <= r.value < |records| && HasId(records[r.value], id)
    ensures r.Some? ==> forall j :: from <= j < r.value ==> !HasId(records[j], id)
    ensures r.None? <==> forall j :: from <= j < |records| ==> !HasId(records[j], id)
  {
    if from >= |records| then None
    else if HasId(records[from], id) then Some(from)
    else SeekFrom(records, id, from + 1)
  }

  /**
   * The `add` closure: with no current id nothing happens; otherwise the
   * cursor moves to the first record at or after it with the block's id (or
   * the seek fails), the block is recorded under the id when it changes that
   * record, and the id and the block are reset.
   */
  function Flushed(records: seq<MaskedEmail>, st: ParseState): (r: Result<ParseState, ParseError>)
    ensures st.id.None? ==> r == Ok(st)
    ensures st.id.Some? ==> (r.Err? <==> forall j :: st.cursor <= j < |records| ==> !HasId(records[j], st.id.value))
    ensures r.Err? ==> r.error == CorrelationFailure(st.id.value)
    ensures st.id.Some? && r.Ok? ==>
      && r.value.id == None && r.value.block == map[]
      && st.cursor <= r.value.cursor < |records| && HasId(records[r.value.cursor], st.id.value)
      && (forall j :: st.cursor <= j < r.value.cursor ==> !HasId(records[j], st.id.value))
  {
    match st.id
    case None => Ok(st)
    case Some(id) =>
      match SeekFrom(records, id, st.cursor)
      case None => Err(CorrelationFailure(id))
      case Some(j) =>
        var toUpdate := if Changed(records[j], st.block) then st.toUpdate[id := st.block] else st.toUpdate;
        Ok(ParseState(j, None, map[], toUpdate))
  }

  /**
   * Proof step, not a property of its own: `Flushed` unfolded for a seek
   * known to land on `j`, so that callers need not unfold `SeekFrom`.
   */
  lemma FlushFound(records: seq<MaskedEmail>, st: ParseState, j: nat)
    requires st.id.Some? && SeekFrom(records, st.id.value, st.cursor) == Some(j)
    ensures Flushed(records, st) == Ok(ParseState(j, None, map[],
      if Changed(records[j], st.block) then st.toUpdate[st.id.value := st.block] else st.toUpdate))
  {
  }

  /**
   * What a flush does to the update object: the id is entered, with the
   * whole block, exactly when the block changes its record; every other
   * entry stays as it was.
   */
  lemma FlushedUpdates(records: seq<MaskedEmail>, st: ParseState)
    requires st.id.Some? && Flushed(records, st).Ok?
    ensures var r := Flushed(records, st).value;
      var changed := Changed(records[r.cursor], st.block);
      && (st.id.value in r.toUpdate <==> st.id.value in st.toUpdate || changed)
      && (changed ==> r.toUpdate[st.id.value] == st.block)
      && (!changed ==> r.toUpdate == st.toUpdate)
      && (forall key :: key != st.id.value ==> (key in r.toUpdate <==> key in st.toUpdate))
      && (forall key :: key != st.id.value && key in st.toUpdate ==> r.toUpdate[key] == st.toUpdate[key])
  {
  }

  /** `add`, with its `while` loop that walks the cursor forward. */
  method Add(records: seq<MaskedEmail>, st: ParseState) returns (r: Result<ParseState, ParseError>)
    ensures r == Flushed(records, st)
  {
    if st.id.None? {
      return Ok(st);
    }
    var id := st.id.value;
    var i := st.cursor;
    while i < |records| && !HasId(records[i], id)
      invariant st.cursor <= i
      invariant SeekFrom(records, id, i) == SeekFrom(records, id, st.cursor)
      decreases |records| - i
    {
      i := i + 1;
    }
    if |records| <= i {
      // `maskedEmails[i]` is `undefined` here, and reading its `id` throws.
      return Err(CorrelationFailure(id));
    }
    var changed := HasChanged(records[i], st.block);
    var toUpdate := st.toUpdate;
    if changed {
      toUpdate := toUpdate[id := st.block];
    }
    r := Ok(ParseState(i, None, map[], toUpdate));
  }

  /** The value a field line stores: an empty `url` becomes null, anything else the captured text. */
  function FieldValue(key: string, value: string): Value
  {
    if key == "url" && value == "" then Null else Str(value)
  }

  /** The field part of one loop iteration: a field line sets its key in the current block. */
  function SetField(st: ParseState, line: string): ParseState
  {
    match MatchField(line)
    case None => st
    case Some((key, value)) => st.(block := st.block[key := FieldValue(key, value)])
  }

  /** One iteration of the loop of `parse` on `line`. */
  function Step(records: seq<MaskedEmail>, st: ParseState, line: string): Result<ParseState, ParseError>
  {
    match MatchHeader(line)
    case None => Ok(SetField(st, line))
    case Some(id) =>
      match Flushed(records, st)
      case Err(e) => Err(e)
      case Ok(s) => Ok(SetField(s.(id := Some(id)), line))
  }

  /** The loop of `parse` over `lines`, from state `st`; the first exception ends it. */
  function Feed(records: seq<MaskedEmail>, st: ParseState, lines: seq<string>): Result<ParseState, ParseError>
    decreases |lines|
  {
    if lines == [] then Ok(st)
    else
      match Step(records, st, lines[0])
      case Err(e) => Err(e)
      case Ok(s) => Feed(records, s, lines[1..])
  }

  /** `parse(data, maskedEmails)`: the loop over the lines, then the final `add()`. */
  function Parsed(data: string, records: seq<MaskedEmail>): Result<Updates, ParseError>
  {
    match Feed(records, Initial, SplitOn(data, '\n'))
    case Err(e) => Err(e)
    case Ok(st) =>
      match Flushed(records, st)
      case Err(e) => Err(e)
      case Ok(last) => Ok(last.toUpdate)
  }

  /** `parse`, as the source writes it: a loop over the lines that updates the local state. */
  method Parse(data: string, records: seq<MaskedEmail>) returns (r: Result<Updates, ParseError>)
    ensures r == Parsed(data, records)
  {
    var st := Initial;
    var lines := SplitOn(data, '\n');
    for k := 0 to |lines|
      invariant Feed(records, st, lines[k..]) == Feed(records, Initial, lines)
    {
      assert lines[k..][1..] == lines[k + 1..];
      var header := MatchHeader(lines[k]);
      if header.Some? {
        var flushed := Add(records, st);
        if flushed.Err? {
          return Err(flushed.error);
        }
        st := flushed.value.(id := header);
      }
      st := SetField(st, lines[k]);
    }
    var last := Add(records, st);
    if last.Err? {
      return Err(last.error);
    }
    return Ok(last.value.toUpdate);
  }

  /** Feeding two runs of lines is feeding the first, then the second from where it ended. */
  lemma {:induction false} FeedAppend(records: seq<MaskedEmail>, st: ParseState, a: seq<string>, b: seq<string>)
    ensures Feed(records, st, a + b) ==
      match Feed(records, st, a)
      case Err(e) => Err(e)
      case Ok(s) => Feed(records, s, b)
    decreases |a|
  {
    if a == [] {
      assert a + b == b;
    } else {
      assert (a + b)[0] == a[0] && (a + b)[1..] == a[1..] + b;
      match Step(records, st, a[0])
      case Err(e) =>
      case Ok(s) => FeedAppend(records, s, a[1..], b);
    }
  }

  /** The cursor never moves back: not in one line, ... */
  lemma StepCursor(records: seq<MaskedEmail>, st: ParseState, line: string)
    ensures Step(records, st, line).Ok? ==> Step(records, st, line).value.cursor >= st.cursor
  {
  }

  /** ... and not in any run of lines. */
  lemma {:induction false} FeedCursor(records: seq<MaskedEmail>, st: ParseState, lines: seq<string>)
    ensures Feed(records, st, lines).Ok? ==> Feed(records, st, lines).value.cursor >= st.cursor
    decreases |lines|
  {
    if lines != [] {
      StepCursor(records, st, lines[0]);
      match Step(records, st, lines[0])
      case Err(e) =>
      case Ok(s) => FeedCursor(records, s, lines[1..]);
    }
  }

  /**
   * A header line closes the current block (a flush) and opens one with
   * its id; the same line is then also read as a field line.
   */
  lemma StepHeader(records: seq<MaskedEmail>, st: ParseState, line: string, pre: string, id: string)
    requires HeaderShape(line, pre, id)
    ensures Step(records, st, line) ==
      match Flushed(records, st)
      case Err(e) => Err(e)
      case Ok(s) => Ok(SetField(s.(id := Some(id)), line))
  {
    MatchHeaderComplete(line, pre, id);
  }

  /**
   * A field line that is no header, indented or not, sets its key, keeping
   * the rest of the block, the id and the cursor.
   */
  lemma StepField(records: seq<MaskedEmail>, st: ParseState, line: string, ws: string, key: string, ws2: string, value: string)
    requires GreedyFieldShape(line, ws, key, ws2, value)
    requires forall pre, id :: !HeaderShape(line, pre, id)
    ensures Step(records, st, line) == Ok(st.(block := st.block[key := FieldValue(key, value)]))
  {
    MatchFieldExact(line, ws, key, ws2, value);
    MatchHeaderSound(line);
  }

  /** An indented line has no header shape: a header starts with a non-space character. */
  lemma IndentedNoHeader(line: string)
    requires line != [] && IsSpace(line[0])
    ensures forall pre, id :: !HeaderShape(line, pre, id)
  {
    forall pre, id ensures !HeaderShape(line, pre, id) {
      if |pre| >= 1 && line == pre + IdMarker + id + ")" {
        assert line[0] == pre[0];
      }
    }
  }

  /**
   * A line that has neither the header shape nor the field shape (a blank
   * line, or any line without a colon) leaves the state alone.
   */
  lemma StepOther(records: seq<MaskedEmail>, st: ParseState, line: string)
    requires forall pre, id :: !HeaderShape(line, pre, id)
    requires forall ws, key, ws2, value :: !FieldShape(line, ws, key, ws2, value)
    ensures Step(records, st, line) == Ok(st)
  {
    MatchHeaderSound(line);
    var ws, ws2 := MatchFieldSound(line);
  }

  /**
   * Field lines before the first header are kept: with no id open, a header
   * line (one whose first word holds no colon, so it sets no field) only
   * opens its id; the cursor, the block read so far and the update object
   * stay as they were.
   */
  lemma FirstHeaderKeepsFields(records: seq<MaskedEmail>, st: ParseState, line: string, pre: string, id: string)
    requires st.id.None? && HeaderShape(line, pre, id) && ':' !in FirstWord(line)
    ensures Step(records, st, line) == Ok(st.(id := Some(id)))
  {
    MatchHeaderComplete(line, pre, id);
    NoColonNoField(line);
  }

  /** A header repeating the current id whose record the cursor is on leaves the cursor there. */
  lemma RepeatedIdKeepsCursor(records: seq<MaskedEmail>, st: ParseState, id: string)
    requires st.id == Some(id) && st.cursor < |records| && HasId(records[st.cursor], id)
    ensures Flushed(records, st).Ok? && Flushed(records, st).value.cursor == st.cursor
  {
  }

  /** Every entry of the update object is a block that changes a record with its id. */
  predicate Justified(records: seq<MaskedEmail>, toUpdate: Updates)
  {
    forall id :: id in toUpdate ==>
      exists j :: 0 <= j < |records| && HasId(records[j], id) && Changed(records[j], toUpdate[id])
  }

  lemma StepJustified(records: seq<MaskedEmail>, st: ParseState, line: string)
    requires Justified(records, st.toUpdate)
    ensures Step(records, st, line).Ok? ==> Justified(records, Step(records, st, line).value.toUpdate)
  {
    if MatchHeader(line).Some? && Flushed(records, st).Ok? {
      FlushJustified(records, st);
    }
  }

  lemma FlushJustified(records: seq<MaskedEmail>, st: ParseState)
    requires Justified(records, st.toUpdate)
    ensures Flushed(records, st).Ok? ==> Justified(records, Flushed(records, st).value.toUpdate)
  {
    if st.id.Some? && Flushed(records, st).Ok? {
      var r := Flushed(records, st).value;
      FlushedUpdates(records, st);
      forall id | id in r.toUpdate
        ensures exists j :: 0 <= j < |records| && HasId(records[j], id) && Changed(records[j], r.toUpdate[id])
      {
        if id == st.id.value && Changed(records[r.cursor], st.block) {
          assert HasId(records[r.cursor], id) && Changed(records[r.cursor], r.toUpdate[id]);
        } else {
          assert id in st.toUpdate && r.toUpdate[id] == st.toUpdate[id];
        }
      }
    }
  }

  lemma {:induction false} FeedJustified(records: seq<MaskedEmail>, st: ParseState, lines: seq<string>)
    requires Justified(records, st.toUpdate)
    ensures Feed(records, st, lines).Ok? ==> Justified(records, Feed(records, st, lines).value.toUpdate)
    decreases |lines|
  {
    if lines != [] {
      StepJustified(records, st, lines[0]);
      match Step(records, st, lines[0])
      case Err(e) =>
      case Ok(s) => FeedJustified(records, s, lines[1..]);
    }
  }

  /**
   * Whatever the text, every id `parse` reports belongs to an original
   * record that its block really changes.
   */
  lemma ParsedChangesAreReal(data: string, records: seq<MaskedEmail>)
    ensures Parsed(data, records).Ok? ==> Justified(records, Parsed(data, records).value)
  {
    FeedJustified(records, Initial, SplitOn(data, '\n'));
    match Feed(records, Initial, SplitOn(data, '\n'))
    case Err(e) =>
    case Ok(st) => FlushJustified(records, st);
  }
}
