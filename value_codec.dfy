/** Between a registry value and the edit dialog's data field:
    fill_value_buffer renders the stored bytes as field text, and set_value
    turns the edited fields back into the name, kind and bytes that go to
    reg_val_set (or into the reason nothing is written). */
module ValueCodec {
  import opened RegTypes
  import opened Text
  import opened Dword
  import opened Widgets
  import Geometry

  /** The UTF-16 helpers the dialog calls (pull_reg_sz, push_reg_sz,
      pull_reg_multi_sz, push_reg_multi_sz). None is an allocation or
      conversion failure, which the dialog reports as WERR_NOMEM. */
  datatype StringCodec = StringCodec(
    pullSz: seq<byte> -> Option<string>,
    pushSz: string -> Option<seq<byte>>,
    pullMultiSz: seq<byte> -> Option<seq<string>>,
    pushMultiSz: seq<string> -> Option<seq<byte>>)

  // ---------------------------------------------------------------------
  // fill_value_buffer

  /** The REG_MULTI_SZ display as the source builds it: every entry
      followed by a newline. set_value does not read it back this way (see
      MultiSzLinesStoredAsOneEntry); the model's display is PaddedRows. */
  function Lines(a: seq<string>): string
    decreases |a|
  {
    if |a| == 0 then "" else a[0] + "\n" + Lines(a[1..])
  }

  lemma {:induction false} LinesSnoc(a: seq<string>, s: string)
    ensures Lines(a + [s]) == Lines(a) + s + "\n"
    decreases |a|
  {
    if |a| == 0 {
      assert a + [s] == [s];
      assert Lines([s][1..]) == "";
    } else {
      assert (a + [s])[1..] == a[1..] + [s];
      LinesSnoc(a[1..], s);
    }
  }

  /** The loop of fill_value_buffer's REG_MULTI_SZ case as the source has
      it: start with no buffer and append "%s\n" for each entry. An empty
      list leaves the buffer NULL, and set_field_buffer(NULL) leaves the
      field blank, which is the empty text here. */
  method JoinLines(a: seq<string>) returns (buf: string)
    ensures buf == Lines(a)
  {
    buf := "";
    var i := 0;
    while i < |a|
      invariant i <= |a|
      invariant buf == Lines(a[..i])
    {
      LinesSnoc(a[..i], a[i]);
      assert a[..i + 1] == a[..i] + [a[i]];
      buf := buf + a[i] + "\n";
      i := i + 1;
    }
    assert a[..i] == a;
  }

  /** Position of the first newline in s, or |s| when there is none. */
  function NewlineIndex(s: string): (i: nat)
    ensures i <= |s|
    ensures i < |s| ==> s[i] == '\n'
    ensures forall j :: 0 <= j < i ==> s[j] != '\n'
    decreases |s|
  {
    if |s| == 0 || s[0] == '\n' then 0 else 1 + NewlineIndex(s[1..])
  }

  /** Reading a newline-terminated list back: the reference the REG_MULTI_SZ
      display is checked against. Text after the last newline is dropped. */
  function SplitLines(s: string): seq<string>
    decreases |s|
  {
    var i := NewlineIndex(s);
    if i == |s| then [] else [s[..i]] + SplitLines(s[i + 1..])
  }

  predicate NoNewline(s: string) {
    forall j :: 0 <= j < |s| ==> s[j] != '\n'
  }

  lemma {:induction false} NewlineIndexAfter(s: string, t: string)
    requires NoNewline(s)
    ensures NewlineIndex(s + "\n" + t) == |s|
    decreases |s|
  {
    if |s| > 0 {
      assert (s + "\n" + t)[1..] == s[1..] + "\n" + t;
      NewlineIndexAfter(s[1..], t);
    }
  }

  /** The REG_MULTI_SZ display loses nothing: as long as no entry holds a
      newline, splitting the text at its newlines gives back the entries. */
  lemma {:induction false} LinesRoundTrip(a: seq<string>)
    requires forall i :: 0 <= i < |a| ==> NoNewline(a[i])
    ensures SplitLines(Lines(a)) == a
    decreases |a|
  {
    if |a| > 0 {
      var s := Lines(a);
      NewlineIndexAfter(a[0], Lines(a[1..]));
      assert s[..|a[0]|] == a[0];
      assert s[|a[0]| + 1..] == Lines(a[1..]);
      LinesRoundTrip(a[1..]);
    }
  }

  /** What fill_value_buffer puts in the data field. */
  datatype Display =
    | FieldText(text: string)   // set_field_buffer(field[1], 0, text)
    | HexEditor                 // REG_BINARY: the hex editor was set up with the bytes
    | DisplayNomem              // WERR_NOMEM: the field is left as it was

  /** The text a value of kind t with the given bytes shows: "0x%x" of the
      first four bytes (0 when there are fewer) for REG_DWORD, the decoded
      string for REG_SZ and REG_EXPAND_SZ, the decoded entries each on rows
      of their own for REG_MULTI_SZ (corrected; the source joins them with
      newlines); a decoding failure is WERR_NOMEM. */
  function DisplayText(t: RegType, data: seq<byte>, codec: StringCodec): Display {
    match t
    case RegDword => FieldText(DwordText(data))
    case RegSz => SzDisplay(data, codec)
    case RegExpandSz => SzDisplay(data, codec)
    case RegMultiSz =>
      (match codec.pullMultiSz(data)
       case None => DisplayNomem
       case Some(a) => FieldText(PaddedRows(a, MULTI_COLS)))
    case RegBinary => HexEditor
  }

  function SzDisplay(data: seq<byte>, codec: StringCodec): Display {
    match codec.pullSz(data)
    case None => DisplayNomem
    case Some(s) => FieldText(s)
  }

  /** fill_value_buffer, with the REG_MULTI_SZ entries laid out one per row
      (corrected). The REG_MULTI_SZ case falls through into the empty
      REG_BINARY case, which changes nothing. */
  method FillValueBuffer(t: RegType, data: seq<byte>, codec: StringCodec) returns (d: Display)
    ensures d == DisplayText(t, data, codec)
  {
    match t {
      case RegDword =>
        d := FieldText("0x" + Hex(DwordOf(data)));
      case RegSz =>
        var s := codec.pullSz(data);
        if s.None? {
          return DisplayNomem;
        }
        d := FieldText(s.value);
      case RegExpandSz =>
        var s := codec.pullSz(data);
        if s.None? {
          return DisplayNomem;
        }
        d := FieldText(s.value);
      case RegMultiSz =>
        var a := codec.pullMultiSz(data);
        if a.None? {
          return DisplayNomem;
        }
        var buf := JoinRows(a.value, MULTI_COLS);
        d := FieldText(buf);
      case RegBinary =>
        d := HexEditor;
    }
  }

  /** The dialog shows text exactly for the four text kinds, the hex editor
      exactly for REG_BINARY, and a REG_DWORD always renders. */
  lemma DisplayMatchesKind(t: RegType, data: seq<byte>, codec: StringCodec)
    ensures DisplayText(t, data, codec) == HexEditor <==> t == RegBinary
    ensures t == RegDword ==> DisplayText(t, data, codec).FieldText?
    ensures DisplayText(t, data, codec) == DisplayNomem ==>
              (t in {RegSz, RegExpandSz} && codec.pullSz(data).None?) ||
              (t == RegMultiSz && codec.pullMultiSz(data).None?)
  {
  }

  // ---------------------------------------------------------------------
  // set_value: the REG_MULTI_SZ rows

  /** Width of the data field's rows, which dynamic_field_info reports. */
  const MULTI_COLS: nat := Geometry.EDIT_COLS as nat - 4

  /** The field buffer cut into cols-wide rows, the last one possibly
      shorter. */
  function Chunks(buf: string, cols: nat): (rows: seq<string>)
    requires cols > 0
    ensures forall i :: 0 <= i < |rows| ==> |rows[i]| <= cols
    decreases |buf|
  {
    if |buf| == 0 then []
    else [buf[..Min(cols, |buf|)]] + Chunks(buf[Min(cols, |buf|)..], cols)
  }

  /** string_trim applied to every row. */
  function TrimEach(rows: seq<string>): (r: seq<string>)
    ensures |r| == |rows|
  {
    seq(|rows|, i requires 0 <= i < |rows| => Trim(rows[i]))
  }

  /** Each cols-wide row of the field buffer, trimmed: one entry per row,
      blank rows giving empty entries, none wider than a row and none with
      a space at either end. */
  function TrimmedRows(buf: string, cols: nat): (rows: seq<string>)
    requires cols > 0
    ensures |rows| == |Chunks(buf, cols)|
    ensures forall i :: 0 <= i < |rows| ==> |rows[i]| <= cols && Trimmed(rows[i])
  {
    TrimEach(Chunks(buf, cols))
  }

  /** The row loop of set_value's REG_MULTI_SZ case: step through the
      buffer cols at a time until its end, trimming each row with
      string_trim_n. The row index never reaches the row count
      dynamic_field_info reports (the SMB_ASSERT in the loop). */
  method SplitRows(buf: string, cols: nat) returns (arr: seq<string>)
    requires cols > 0
    ensures arr == TrimmedRows(buf, cols)
  {
    ghost var chunks := Chunks(buf, cols);
    var rows := (|buf| + cols - 1) / cols;
    ChunkCount(buf, cols);
    arr := [];
    var p := 0;
    assert buf[p..] == buf;
    while p < |buf|
      invariant RowsSoFar(buf, cols, chunks, arr, p)
      decreases |buf| - p
    {
      RowStep(buf, cols, chunks, arr, p);
      assert |arr| < rows;
      arr := arr + [TrimN(buf[p..], cols)];
      p := p + cols;
    }
    RowsDone(buf, cols, arr, p);
  }

  /** The row loop's invariant: arr holds the first rows trimmed, and the
      buffer from p on holds the rest. */
  ghost predicate RowsSoFar(buf: string, cols: nat, chunks: seq<string>, arr: seq<string>, p: nat)
    requires cols > 0
  {
    |arr| <= |chunks| &&
    (forall i :: 0 <= i < |arr| ==> arr[i] == Trim(chunks[i])) &&
    (p < |buf| ==> Chunks(buf[p..], cols) == chunks[|arr|..]) &&
    (p >= |buf| ==> |arr| == |chunks|)
  }

  /** One pass of the row loop keeps its invariant; it never runs past the
      last row. */
  lemma RowStep(buf: string, cols: nat, chunks: seq<string>, arr: seq<string>, p: nat)
    requires cols > 0 && p < |buf|
    requires RowsSoFar(buf, cols, chunks, arr, p)
    ensures |arr| < |chunks|
    ensures RowsSoFar(buf, cols, chunks, arr + [TrimN(buf[p..], cols)], p + cols)
  {
    ChunkStep(buf, cols, |arr|, p, chunks);
    var next := arr + [TrimN(buf[p..], cols)];
    assert forall i :: 0 <= i < |arr| ==> next[i] == arr[i];
  }

  /** The row at p is the next chunk, and the rest of the buffer holds the
      chunks after it. */
  lemma ChunkStep(buf: string, cols: nat, k: nat, p: nat, chunks: seq<string>)
    requires cols > 0 && p < |buf|
    requires k <= |chunks| && Chunks(buf[p..], cols) == chunks[k..]
    ensures k < |chunks|
    ensures TrimN(buf[p..], cols) == Trim(chunks[k])
    ensures p + cols < |buf| ==> Chunks(buf[p + cols..], cols) == chunks[k + 1..]
    ensures p + cols >= |buf| ==> k + 1 == |chunks|
  {
    var tail := buf[p..];
    var m := Min(cols, |tail|);
    assert Chunks(tail, cols) == [tail[..m]] + Chunks(tail[m..], cols);
    assert chunks[k..][1..] == chunks[k + 1..];
    assert tail[m..] == buf[p + m..];
  }

  /** The rows the loop collects are all the rows, trimmed. */
  lemma RowsDone(buf: string, cols: nat, arr: seq<string>, p: nat)
    requires cols > 0 && p >= |buf|
    requires RowsSoFar(buf, cols, Chunks(buf, cols), arr, p)
    ensures arr == TrimmedRows(buf, cols)
  {
  }

  /** The buffer holds as many rows as dynamic_field_info reports for a
      field of its length: the length divided by the width, rounded up. */
  lemma {:induction false} ChunkCount(buf: string, cols: nat)
    requires cols > 0
    ensures |Chunks(buf, cols)| == (|buf| + cols - 1) / cols
    decreases |buf|
  {
    if |buf| > cols {
      ChunkCount(buf[cols..], cols);
      DivStep(|buf| + cols - 1, cols);
    } else if |buf| > 0 {
      DivUnique(|buf| + cols - 1, cols, 1, |buf| - 1);
    } else {
      DivUnique(cols - 1, cols, 0, cols - 1);
    }
  }

  /** Taking one width off the dividend takes one off the quotient. */
  lemma DivStep(x: nat, c: nat)
    requires 0 < c <= x
    ensures (x - c) / c + 1 == x / c
  {
    var q := (x - c) / c;
    var r := (x - c) % c;
    assert x - c == q * c + r;
    assert x == (q + 1) * c + r;
    DivUnique(x, c, q + 1, r);
  }

  /** Euclidean division has one quotient and one remainder. */
  lemma DivUnique(x: nat, c: nat, q: nat, r: nat)
    requires 0 < c && r < c && x == q * c + r
    ensures x / c == q
  {
    var q0 := x / c;
    var r0 := x % c;
    assert q0 * c + r0 == q * c + r;
    if q0 < q {
      MulGap(q0, q - q0, c);
    } else if q0 > q {
      MulGap(q, q0 - q, c);
    }
  }

  /** A quotient d larger moves the product by at least one divisor. */
  lemma MulGap(a: nat, d: nat, c: nat)
    requires d >= 1
    ensures (a + d) * c >= a * c + c
  {
    assert (a + d) * c == a * c + d * c;
    assert d * c == c + (d - 1) * c;
  }

  /** An entry as the corrected display lays it out: followed by spaces to
      the end of its last row, so that the next entry starts a row of its
      own; an empty entry takes one blank row. */
  function PadRow(s: string, cols: nat): (r: string)
    requires cols > 0
    ensures |s| <= cols ==> r == s + Blanks(cols - |s|) && |r| == cols
  {
    if |s| < cols then s + Blanks(cols - |s|)
    else s + Blanks(if |s| % cols == 0 then 0 else cols - |s| % cols)
  }

  /** Entries laid out each on rows of their own. */
  function PaddedRows(a: seq<string>, cols: nat): (s: string)
    requires cols > 0
    decreases |a|
  {
    if |a| == 0 then "" else PadRow(a[0], cols) + PaddedRows(a[1..], cols)
  }

  lemma {:induction false} PaddedRowsSnoc(a: seq<string>, s: string, cols: nat)
    requires cols > 0
    ensures PaddedRows(a + [s], cols) == PaddedRows(a, cols) + PadRow(s, cols)
    decreases |a|
  {
    if |a| == 0 {
      assert a + [s] == [s];
      assert PaddedRows([s][1..], cols) == "";
    } else {
      assert (a + [s])[1..] == a[1..] + [s];
      PaddedRowsSnoc(a[1..], s, cols);
    }
  }

  /** fill_value_buffer's REG_MULTI_SZ loop, corrected: each entry is
      appended padded to the end of its row instead of followed by "\n". */
  method JoinRows(a: seq<string>, cols: nat) returns (buf: string)
    requires cols > 0
    ensures buf == PaddedRows(a, cols)
  {
    buf := "";
    var i := 0;
    while i < |a|
      invariant i <= |a|
      invariant buf == PaddedRows(a[..i], cols)
    {
      PaddedRowsSnoc(a[..i], a[i], cols);
      assert a[..i + 1] == a[..i] + [a[i]];
      buf := buf + PadRow(a[i], cols);
      i := i + 1;
    }
    assert a[..i] == a;
  }

  /** A full first row splits off as the first chunk. */
  lemma ChunksOfFullRow(x: string, rest: string, cols: nat)
    requires cols > 0 && |x| == cols
    ensures Chunks(x + rest, cols) == [x] + Chunks(rest, cols)
  {
    var buf := x + rest;
    assert Min(cols, |buf|) == cols;
    assert buf[..cols] == x;
    assert buf[cols..] == rest;
  }

  /** Each entry padded to the end of its row, one row per entry. */
  function PadAll(a: seq<string>, cols: nat): (r: seq<string>)
    requires cols > 0
    ensures |r| == |a|
    ensures forall i :: 0 <= i < |a| ==> r[i] == PadRow(a[i], cols)
    decreases |a|
  {
    if |a| == 0 then [] else [PadRow(a[0], cols)] + PadAll(a[1..], cols)
  }

  /** Entries no wider than a row come back as their padded rows. */
  lemma {:induction false} ChunksOfPadded(a: seq<string>, cols: nat)
    requires cols > 0
    requires forall i :: 0 <= i < |a| ==> |a[i]| <= cols
    ensures Chunks(PaddedRows(a, cols), cols) == PadAll(a, cols)
    decreases |a|
  {
    if |a| > 0 {
      var head := PadRow(a[0], cols);
      assert |a[0]| <= cols;
      ChunksOfFullRow(head, PaddedRows(a[1..], cols), cols);
      ChunksOfPadded(a[1..], cols);
    }
  }

  /** The rows read back: entries laid out one per row (each without outer
      spaces and no wider than the field) are exactly what the row loop
      collects. */
  lemma TrimmedRowsOfPadded(a: seq<string>, cols: nat)
    requires cols > 0
    requires forall i :: 0 <= i < |a| ==> |a[i]| <= cols && Trimmed(a[i])
    ensures TrimmedRows(PaddedRows(a, cols), cols) == a
  {
    var c := Chunks(PaddedRows(a, cols), cols);
    ChunksOfPadded(a, cols);
    forall i | 0 <= i < |a|
      ensures Trim(c[i]) == a[i]
    {
      assert |a[i]| <= cols;
      assert c[i] == PadRow(a[i], cols) == a[i] + Blanks(cols - |a[i]|);
      assert c[i] == Blanks(0) + a[i] + Blanks(cols - |a[i]|);
      TrimOfPadded(0, a[i], cols - |a[i]|);
    }
  }

  // ---------------------------------------------------------------------
  // set_value

  /** What set_value decides. */
  datatype Commit =
    | Unchanged                                          // WERR_OK, nothing written
    | NameExists                                         // WERR_FILE_EXISTS, nothing written
    | OutOfMemory                                        // WERR_NOMEM, nothing written
    | Store(name: string, kind: RegType, blob: seq<byte>) // reg_val_set(key, name, kind, blob)

  /** The early exit: an existing value whose text field was never edited
      is not written back. A hex-edited value is always written. */
  predicate Untouched(isNew: bool, d: DataWidget) {
    !isNew && d.TextData? && !d.field.changed
  }

  /** set_value with the allocation failures reported: the trimmed name,
      the value kind and the encoded data, unless the value is unchanged,
      a new value's name is taken, or encoding fails. */
  function CommitFor(t: RegType, isNew: bool, nameBuf: string, d: DataWidget,
                     exists_: string -> bool, codec: StringCodec): Commit
    requires WidgetFits(t, d)
  {
    var name := Trim(nameBuf);
    if Untouched(isNew, d) then Unchanged
    else if isNew && exists_(name) then NameExists
    else match t
      case RegDword => Store(name, t, DwordBytes(d.field.buffer))
      case RegSz => Encoded(name, t, codec.pushSz(Trim(d.field.buffer)))
      case RegExpandSz => Encoded(name, t, codec.pushSz(Trim(d.field.buffer)))
      case RegMultiSz => Encoded(name, t, codec.pushMultiSz(TrimmedRows(d.field.buffer, MULTI_COLS)))
      case RegBinary => Store(name, t, d.bytes)
  }

  function Encoded(name: string, t: RegType, blob: Option<seq<byte>>): Commit {
    match blob
    case None => OutOfMemory
    case Some(b) => Store(name, t, b)
  }

  /** set_value exactly as the source has it: the REG_DWORD prefix test
      looks at the untrimmed buffer, and after a failed encoding the
      WERR_NOMEM is overwritten and reg_val_set is called with the blob
      that was never set (stale). */
  function CommitAsWritten(t: RegType, isNew: bool, nameBuf: string, d: DataWidget,
                           exists_: string -> bool, codec: StringCodec,
                           stale: seq<byte>): (r: Commit)
    requires WidgetFits(t, d)
    ensures r == Unchanged <==> Untouched(isNew, d)
    ensures r == NameExists <==> !Untouched(isNew, d) && isNew && exists_(Trim(nameBuf))
    ensures r != OutOfMemory
    ensures r.Store? ==> r.name == Trim(nameBuf) && r.kind == t
    ensures r.Store? && t == RegBinary ==> r.blob == d.bytes
    ensures r.Store? && t == RegDword ==> |r.blob| == 4
  {
    var name := Trim(nameBuf);
    if Untouched(isNew, d) then Unchanged
    else if isNew && exists_(name) then NameExists
    else match t
      case RegDword => Store(name, t, ToLE(ParseDwordAsWritten(d.field.buffer), 4))
      case RegSz => Store(name, t, OrStale(codec.pushSz(Trim(d.field.buffer)), stale))
      case RegExpandSz => Store(name, t, OrStale(codec.pushSz(Trim(d.field.buffer)), stale))
      case RegMultiSz =>
        Store(name, t, OrStale(codec.pushMultiSz(TrimmedRows(d.field.buffer, MULTI_COLS)), stale))
      case RegBinary => Store(name, t, d.bytes)
  }

  function OrStale(blob: Option<seq<byte>>, stale: seq<byte>): seq<byte> {
    match blob
    case None => stale
    case Some(b) => b
  }

  /** set_value: trim the name; return early when nothing changed or the
      new name is taken; then encode the data field by kind. */
  method SetValue(t: RegType, isNew: bool, nameBuf: string, d: DataWidget,
                  exists_: string -> bool, codec: StringCodec) returns (c: Commit)
    requires WidgetFits(t, d)
    ensures c == CommitFor(t, isNew, nameBuf, d, exists_, codec)
  {
    var name := Trim(nameBuf);
    if !isNew && !d.HexData? && !d.field.changed {
      return Unchanged;
    }
    if isNew && exists_(name) {
      return NameExists;
    }
    var blob: Option<seq<byte>>;
    match t {
      case RegDword =>
        var buf := d.field.buffer;
        blob := Some(ToLE(ParseDword(buf), 4));
      case RegSz =>
        blob := codec.pushSz(Trim(d.field.buffer));
      case RegExpandSz =>
        blob := codec.pushSz(Trim(d.field.buffer));
      case RegMultiSz =>
        var arr := SplitRows(d.field.buffer, MULTI_COLS);
        blob := codec.pushMultiSz(arr);
      case RegBinary =>
        blob := Some(d.bytes);
    }
    if blob.None? {
      return OutOfMemory;
    }
    c := Store(name, t, blob.value);
  }

  // ---------------------------------------------------------------------
  // What set_value promises

  /** The two early exits, both ways round: nothing is written for an
      untouched existing value, and a new value whose trimmed name already
      exists is refused before anything is encoded. */
  lemma CommitExits(t: RegType, isNew: bool, nameBuf: string, d: DataWidget,
                    exists_: string -> bool, codec: StringCodec)
    requires WidgetFits(t, d)
    ensures CommitFor(t, isNew, nameBuf, d, exists_, codec) == Unchanged <==> Untouched(isNew, d)
    ensures CommitFor(t, isNew, nameBuf, d, exists_, codec) == NameExists <==>
              (isNew && exists_(Trim(nameBuf)))
  {
  }

  /** Whatever is written goes under the trimmed name with the dialog's
      kind, never over an existing value when creating one, and never for
      an untouched value; a failed encoding is the only way to WERR_NOMEM. */
  lemma CommitStoresUnderTrimmedName(t: RegType, isNew: bool, nameBuf: string, d: DataWidget,
                                     exists_: string -> bool, codec: StringCodec)
    requires WidgetFits(t, d)
    ensures var c := CommitFor(t, isNew, nameBuf, d, exists_, codec);
            c.Store? ==> c.name == Trim(nameBuf) && c.kind == t &&
                         !Untouched(isNew, d) && !(isNew && exists_(c.name))
    ensures var c := CommitFor(t, isNew, nameBuf, d, exists_, codec);
            c == OutOfMemory <==>
              !Untouched(isNew, d) && !(isNew && exists_(Trim(nameBuf))) &&
              (((t == RegSz || t == RegExpandSz) && codec.pushSz(Trim(d.field.buffer)).None?) ||
               (t == RegMultiSz && codec.pushMultiSz(TrimmedRows(d.field.buffer, MULTI_COLS)).None?))
  {
  }

  /** A REG_DWORD is always stored as four bytes, and those bytes read back
      (IVAL) as what the field's text denotes whenever it matches the
      field's pattern. */
  lemma DwordCommitDecodes(isNew: bool, nameBuf: string, f: Field,
                           exists_: string -> bool, codec: StringCodec)
    requires !isNew ==> f.changed
    requires !(isNew && exists_(Trim(nameBuf)))
    requires DwordPattern(f.buffer)
    ensures var c := CommitFor(RegDword, isNew, nameBuf, TextData(f), exists_, codec);
            c.Store? && |c.blob| == 4 && DwordOf(c.blob) == PatternValue(f.buffer)
  {
    DwordBytesDecode(f.buffer);
  }

  /** The four stored bytes read back as the pattern's value. */
  lemma DwordBytesDecode(buf: string)
    requires DwordPattern(buf)
    ensures DwordOf(DwordBytes(buf)) == PatternValue(buf)
  {
    ParseDwordMatchesPattern(buf);
    DwordBytesRead(buf);
  }

  /** The four stored bytes read back (IVAL) as the parsed number. */
  lemma DwordBytesRead(buf: string)
    ensures DwordOf(DwordBytes(buf)) == ParseDword(buf)
  {
    var v := ParseDword(buf);
    assert Pow256(4) == TWO32 by {
      assert Pow256(2) == 65536;
    }
    FromLEOfToLE(v, 4);
    var b := ToLE(v, 4);
    assert b[..4] == b;
  }

  /** Opening a REG_DWORD and confirming after touching the field (the
      text as shown, padded by the field) stores the value's own first four
      bytes again, or four zero bytes when it had fewer. */
  lemma DwordCommitRoundTrip(data: seq<byte>, k: nat, nameBuf: string,
                             exists_: string -> bool, codec: StringCodec)
    ensures CommitFor(RegDword, false, nameBuf,
                      TextData(Field(DwordText(data) + Blanks(k), true)), exists_, codec)
            == Store(Trim(nameBuf), RegDword,
                     if |data| >= 4 then data[..4] else [0, 0, 0, 0])
  {
    DwordRoundTrip(data, k);
  }

  /** A REG_SZ or REG_EXPAND_SZ string without outer spaces, shown and then
      confirmed after the field was touched, is stored as the bytes it was
      read from whenever the codec round-trips it. */
  lemma SzCommitRoundTrip(t: RegType, data: seq<byte>, s: string, k: nat, nameBuf: string,
                          exists_: string -> bool, codec: StringCodec)
    requires t == RegSz || t == RegExpandSz
    requires codec.pullSz(data) == Some(s) && codec.pushSz(s) == Some(data)
    requires Trimmed(s)
    ensures DisplayText(t, data, codec) == FieldText(s)
    ensures CommitFor(t, false, nameBuf, TextData(Field(s + Blanks(k), true)), exists_, codec)
            == Store(Trim(nameBuf), t, data)
  {
    assert s + Blanks(k) == Blanks(0) + s + Blanks(k);
    TrimOfPadded(0, s, k);
  }

  /** A REG_MULTI_SZ shown one entry per row, then confirmed after the
      field was touched, is stored as the bytes it was read from whenever
      the codec round-trips the list and no entry is wider than a row or
      has a space at either end. */
  lemma MultiSzCommitRoundTrip(data: seq<byte>, a: seq<string>, nameBuf: string,
                               exists_: string -> bool, codec: StringCodec)
    requires forall i :: 0 <= i < |a| ==> |a[i]| <= MULTI_COLS && Trimmed(a[i])
    requires codec.pullMultiSz(data) == Some(a) && codec.pushMultiSz(a) == Some(data)
    ensures DisplayText(RegMultiSz, data, codec) == FieldText(PaddedRows(a, MULTI_COLS))
    ensures CommitFor(RegMultiSz, false, nameBuf, TextData(Field(PaddedRows(a, MULTI_COLS), true)),
                      exists_, codec)
            == Store(Trim(nameBuf), RegMultiSz, data)
  {
    TrimmedRowsOfPadded(a, MULTI_COLS);
  }

  /** Empty entries: what blank rows of the field read back as. */
  function Empties(k: nat): (r: seq<string>)
    ensures |r| == k
    ensures forall i :: 0 <= i < k ==> r[i] == ""
  {
    seq(k, _ => "")
  }

  /** Two lists laid out one after the other. */
  lemma {:induction false} PaddedRowsAppend(a: seq<string>, b: seq<string>, cols: nat)
    requires cols > 0
    ensures PaddedRows(a + b, cols) == PaddedRows(a, cols) + PaddedRows(b, cols)
    decreases |a|
  {
    if |a| == 0 {
      assert a + b == b;
    } else {
      assert (a + b)[0] == a[0];
      assert (a + b)[1..] == a[1..] + b;
      PaddedRowsAppend(a[1..], b, cols);
    }
  }

  /** Empty entries laid out are blank rows, one per entry. */
  lemma {:induction false} PaddedRowsOfEmpties(k: nat, cols: nat)
    requires cols > 0
    ensures PaddedRows(Empties(k), cols) == Blanks(k * cols)
    decreases k
  {
    if k > 0 {
      assert Empties(k)[1..] == Empties(k - 1);
      PaddedRowsOfEmpties(k - 1, cols);
      assert Blanks(k * cols) == PadRow("", cols) + Blanks((k - 1) * cols) by {
        assert k * cols == cols + (k - 1) * cols;
        BlanksSplit(cols, (k - 1) * cols);
      }
    }
  }

  /** The field as curses holds it: spaces fill every row after the last
      entry (the five rows of the REG_MULTI_SZ field, or more once it has
      grown), and each of those rows is read back as an empty entry. So a
      list shown one entry per row and confirmed is stored with one empty
      entry appended per unused row: ["a", "b"] in the five-row field is
      stored as ["a", "b", "", "", ""]. */
  lemma MultiSzPaddedFieldAddsEmptyEntries(a: seq<string>, k: nat, nameBuf: string,
                                           exists_: string -> bool, codec: StringCodec)
    requires forall i :: 0 <= i < |a| ==> |a[i]| <= MULTI_COLS && Trimmed(a[i])
    ensures TrimmedRows(PaddedRows(a, MULTI_COLS) + Blanks(k * MULTI_COLS), MULTI_COLS) == a + Empties(k)
    ensures CommitFor(RegMultiSz, false, nameBuf,
                      TextData(Field(PaddedRows(a, MULTI_COLS) + Blanks(k * MULTI_COLS), true)), exists_, codec)
            == Encoded(Trim(nameBuf), RegMultiSz, codec.pushMultiSz(a + Empties(k)))
    ensures a == ["a", "b"] && k == Geometry.DataRows(RegMultiSz) - 2 ==>
              a + Empties(k) == ["a", "b", "", "", ""]
  {
    var b := a + Empties(k);
    forall i | 0 <= i < |b|
      ensures |b[i]| <= MULTI_COLS && Trimmed(b[i])
    {
      if i >= |a| {
        assert b[i] == "";
      }
    }
    PaddedRowsAppend(a, Empties(k), MULTI_COLS);
    PaddedRowsOfEmpties(k, MULTI_COLS);
    TrimmedRowsOfPadded(b, MULTI_COLS);
    assert TrimmedRows(PaddedRows(a, MULTI_COLS) + Blanks(k * MULTI_COLS), MULTI_COLS) == b;
  }

  /** The source's REG_MULTI_SZ display does not read back: the list
      ["a", "b"] is shown as "a\nb\n", which fits in the first row, so
      set_value (as written, and the model's) stores the single entry
      "a\nb\n". Laid out one entry per row, the same list is stored as
      ["a", "b"]. */
  lemma MultiSzLinesStoredAsOneEntry(nameBuf: string, exists_: string -> bool, codec: StringCodec,
                                     stale: seq<byte>)
    ensures Lines(["a", "b"]) == "a\nb\n"
    ensures CommitAsWritten(RegMultiSz, false, nameBuf, TextData(Field("a\nb\n", true)), exists_, codec, stale)
            == Store(Trim(nameBuf), RegMultiSz, OrStale(codec.pushMultiSz(["a\nb\n"]), stale))
    ensures CommitFor(RegMultiSz, false, nameBuf, TextData(Field("a\nb\n", true)), exists_, codec)
            == Encoded(Trim(nameBuf), RegMultiSz, codec.pushMultiSz(["a\nb\n"]))
    ensures CommitFor(RegMultiSz, false, nameBuf, TextData(Field(PaddedRows(["a", "b"], MULTI_COLS), true)),
                      exists_, codec)
            == Encoded(Trim(nameBuf), RegMultiSz, codec.pushMultiSz(["a", "b"]))
  {
    assert Lines(["a", "b"][1..][1..]) == "";
    OneRowReadsBack("a\nb\n");
    assert TrimmedRows("a\nb\n", MULTI_COLS) == ["a\nb\n"];
    TrimmedRowsOfPadded(["a", "b"], MULTI_COLS);
    assert TrimmedRows(PaddedRows(["a", "b"], MULTI_COLS), MULTI_COLS) == ["a", "b"];
  }

  /** A text without outer spaces that fits in one row is read back as
      that single entry. */
  lemma OneRowReadsBack(buf: string)
    requires 0 < |buf| <= MULTI_COLS && Trimmed(buf)
    ensures TrimmedRows(buf, MULTI_COLS) == [buf]
  {
    assert buf[..Min(MULTI_COLS, |buf|)] == buf;
    assert Chunks(buf[Min(MULTI_COLS, |buf|)..], MULTI_COLS) == [];
    assert Chunks(buf, MULTI_COLS) == [buf];
    assert buf == Blanks(0) + buf + Blanks(0);
    TrimOfPadded(0, buf, 0);
  }

  /** The corrected set_value and the source agree whenever encoding
      succeeds and the REG_DWORD text has no leading space. */
  lemma CommitAgreesWithSource(t: RegType, isNew: bool, nameBuf: string, d: DataWidget,
                               exists_: string -> bool, codec: StringCodec, stale: seq<byte>)
    requires WidgetFits(t, d)
    requires CommitFor(t, isNew, nameBuf, d, exists_, codec) != OutOfMemory
    requires t == RegDword ==> (|d.field.buffer| == 0 || d.field.buffer[0] != ' ')
    ensures CommitAsWritten(t, isNew, nameBuf, d, exists_, codec, stale)
            == CommitFor(t, isNew, nameBuf, d, exists_, codec)
  {
    if t == RegDword {
      ParseDwordAgreesWithoutLeadingSpace(d.field.buffer);
    }
  }

  /** The source's failure path: when the string cannot be encoded,
      set_value as written still calls reg_val_set, with the unset blob,
      and answers its result instead of WERR_NOMEM. */
  lemma EncodingFailureStillWritesAsWritten(t: RegType, nameBuf: string, f: Field,
                                            exists_: string -> bool, codec: StringCodec,
                                            stale: seq<byte>)
    requires t == RegSz || t == RegExpandSz
    requires f.changed
    requires codec.pushSz(Trim(f.buffer)).None?
    ensures CommitAsWritten(t, false, nameBuf, TextData(f), exists_, codec, stale)
            == Store(Trim(nameBuf), t, stale)
    ensures CommitFor(t, false, nameBuf, TextData(f), exists_, codec) == OutOfMemory
  {
  }

  /** The source's REG_DWORD path on " 0x1A": the field pattern accepts it
      as 26, set_value as written stores 0, the corrected one stores 26. */
  lemma LeadingSpaceDwordStoredAsZero(nameBuf: string, exists_: string -> bool,
                                      codec: StringCodec, stale: seq<byte>)
    ensures DwordPattern(" 0x1A") && PatternValue(" 0x1A") == 26
    ensures CommitAsWritten(RegDword, false, nameBuf, TextData(Field(" 0x1A", true)),
                            exists_, codec, stale)
            == Store(Trim(nameBuf), RegDword, [0, 0, 0, 0])
    ensures CommitFor(RegDword, false, nameBuf, TextData(Field(" 0x1A", true)), exists_, codec)
            == Store(Trim(nameBuf), RegDword, [26, 0, 0, 0])
  {
    LeadingSpaceHexParsesAsZero();
    SmallDwordBytes();
  }

  lemma SmallDwordBytes()
    ensures ToLE(0, 4) == [0, 0, 0, 0]
    ensures ToLE(26, 4) == [26, 0, 0, 0]
  {
    ZeroBytes(4);
    ZeroBytes(3);
    assert ToLE(26, 4) == [26] + ToLE(0, 3);
  }
}
