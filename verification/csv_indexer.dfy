/** The offset indexer (`build_key_index_and_header`) and the row
    materializer (`get_row_dict_by_offset`). A file is its whole text; an
    offset is a character position in it, the value `tell()` reports before
    each `readline()`. */
module CsvIndexer {
  import opened Prelude
  import opened Text

  /** Raised when the key column is not among the header's names. */
  datatype IndexError = MissingKeyColumn(keycol: string)

  /** What the indexer returns: key value -> offset of its line, and the
      header's column names. */
  datatype Indexed = Indexed(index: map<string, nat>, header: seq<string>)

  /** The header: the first line, stripped and split on ','. */
  function Header(text: string): seq<string> {
    Fields(text, 0)
  }

  /** Where the data lines begin: just past the header line. */
  function DataStart(text: string): nat
  {
    LineEnd(text, 0)
  }

  /** `o` is the start of a data line (any line after the header). */
  predicate IsDataLine(text: string, o: nat) {
    DataStart(text) <= o < |text| && IsLineStart(text, o)
  }

  /** The key value of the line at `o`, when its split has a field at the
      key position; a shorter line has none and is skipped. */
  function KeyAt(text: string, keyIdx: nat, o: nat): (k: Option<string>)
    ensures k.Some? <==> keyIdx < |Fields(text, o)|
    ensures k.Some? ==> k.value == Fields(text, o)[keyIdx]
  {
    var fields := Fields(text, o);
    if keyIdx < |fields| then Some(fields[keyIdx]) else None
  }

  /** The data line at `o` carries the key value `k`. */
  predicate KeyedLine(text: string, keyIdx: nat, o: nat, k: string) {
    IsDataLine(text, o) && KeyAt(text, keyIdx, o) == Some(k)
  }

  /** The declarative meaning of a key index: every entry points at a data
      line carrying that key, and every data line carrying a key is at or
      before the entry for its key (so the entry is the LAST such line). */
  ghost predicate IsKeyIndex(text: string, keyIdx: nat, index: map<string, nat>) {
    && (forall k :: k in index ==> KeyedLine(text, keyIdx, index[k], k))
    && (forall o, k :: KeyedLine(text, keyIdx, o, k) ==> k in index && o <= index[k])
  }

  /** The key value of each line, as a function of its offset. */
  function KeysOf(text: string, keyIdx: nat): nat -> Option<string> {
    (o: nat) => KeyAt(text, keyIdx, o)
  }

  /** The indexing loop from the line at `pos` on, with the entries so far in
      `acc`, where `keyOf` gives each line's key value, if any. */
  function Scan(text: string, keyOf: nat -> Option<string>, pos: nat, acc: map<string, nat>): map<string, nat>
    requires pos <= |text|
    decreases |text| - pos
  {
    if pos == |text| then acc
    else Scan(text, keyOf, LineEnd(text, pos), Record(keyOf, pos, acc))
  }

  /** One step of the loop: the line at `pos` overwrites its key's entry,
      or changes nothing when it is too short to have a key field. */
  function Record(keyOf: nat -> Option<string>, pos: nat, acc: map<string, nat>): map<string, nat> {
    match keyOf(pos)
    case Some(k) => acc[k := pos]
    case None => acc
  }

  /** The line starting at `o`, at or after `pos`, carries the key `k`. */
  predicate KeyedFrom(text: string, keyOf: nat -> Option<string>, pos: nat, o: nat, k: string) {
    pos <= o < |text| && IsLineStart(text, o) && keyOf(o) == Some(k)
  }

  /** The scan never drops a key. */
  lemma {:induction false} ScanKeepsKeys(text: string, keyOf: nat -> Option<string>, pos: nat, acc: map<string, nat>)
    requires pos <= |text|
    ensures acc.Keys <= Scan(text, keyOf, pos, acc).Keys
    decreases |text| - pos
  {
    if pos < |text| {
      ScanKeepsKeys(text, keyOf, LineEnd(text, pos), Record(keyOf, pos, acc));
    }
  }

  /** Every entry of the scan is either left over from `acc` or the offset
      of a line at or after `pos` carrying that key. */
  lemma {:induction false} ScanSound(text: string, keyOf: nat -> Option<string>, pos: nat, acc: map<string, nat>)
    requires pos <= |text| && (pos == |text| || IsLineStart(text, pos))
    ensures var r := Scan(text, keyOf, pos, acc);
      forall k :: k in r ==> (k in acc && r[k] == acc[k]) || KeyedFrom(text, keyOf, pos, r[k], k)
    decreases |text| - pos
  {
    if pos < |text| {
      var next := LineEnd(text, pos);
      var acc' := Record(keyOf, pos, acc);
      var r := Scan(text, keyOf, next, acc');
      assert Scan(text, keyOf, pos, acc) == r;
      ScanSound(text, keyOf, next, acc');
      forall k | k in r ensures (k in acc && r[k] == acc[k]) || KeyedFrom(text, keyOf, pos, r[k], k) {
        if keyOf(pos) == Some(k) && !KeyedFrom(text, keyOf, next, r[k], k) {
          assert acc' == acc[k := pos];
        }
      }
    }
  }

  /** Every line at or after `pos` carrying a key lies at or before the
      scan's entry for that key: the last such line wins. */
  lemma {:induction false} ScanComplete(text: string, keyOf: nat -> Option<string>, pos: nat, acc: map<string, nat>)
    requires pos <= |text| && (pos == |text| || IsLineStart(text, pos))
    ensures var r := Scan(text, keyOf, pos, acc);
      forall o, k :: KeyedFrom(text, keyOf, pos, o, k) ==> k in r && o <= r[k]
    decreases |text| - pos
  {
    if pos < |text| {
      var next := LineEnd(text, pos);
      var acc' := Record(keyOf, pos, acc);
      var r := Scan(text, keyOf, next, acc');
      assert Scan(text, keyOf, pos, acc) == r;
      ScanComplete(text, keyOf, next, acc');
      forall o, k | KeyedFrom(text, keyOf, pos, o, k) ensures k in r && o <= r[k] {
        if o < next {
          if o != pos {
            NoLineStartInside(text, pos, o);
          }
          ScanKeepsKeys(text, keyOf, next, acc');
          ScanSound(text, keyOf, next, acc');
        } else {
          assert KeyedFrom(text, keyOf, next, o, k);
        }
      }
    }
  }

  /** The index of a whole file: the scan of its data lines from empty. */
  lemma ScanIsKeyIndex(text: string, keyIdx: nat)
    ensures IsKeyIndex(text, keyIdx, Scan(text, KeysOf(text, keyIdx), DataStart(text), map[]))
  {
    var keyOf := KeysOf(text, keyIdx);
    var start := DataStart(text);
    var r := Scan(text, keyOf, start, map[]);
    ScanSound(text, keyOf, start, map[]);
    ScanComplete(text, keyOf, start, map[]);
    forall o, k | KeyedLine(text, keyIdx, o, k) ensures k in r && o <= r[k] {
      assert KeyedFrom(text, keyOf, start, o, k);
    }
  }

  /** Any two key indexes of a text: the keys of the first are in the
      second, at offsets no smaller. */
  lemma KeyIndexBelow(text: string, keyIdx: nat, i1: map<string, nat>, i2: map<string, nat>)
    requires IsKeyIndex(text, keyIdx, i1) && IsKeyIndex(text, keyIdx, i2)
    ensures forall k :: k in i1 ==> k in i2 && i1[k] <= i2[k]
  {
    forall k | k in i1 ensures k in i2 && i1[k] <= i2[k] {
      assert KeyedLine(text, keyIdx, i1[k], k);
    }
  }

  /** A text has exactly one key index for a given key position. */
  lemma KeyIndexUnique(text: string, keyIdx: nat, i1: map<string, nat>, i2: map<string, nat>)
    requires IsKeyIndex(text, keyIdx, i1) && IsKeyIndex(text, keyIdx, i2)
    ensures i1 == i2
  {
    KeyIndexBelow(text, keyIdx, i1, i2);
    KeyIndexBelow(text, keyIdx, i2, i1);
    assert i1.Keys == i2.Keys;
    assert forall k :: k in i1 ==> i1[k] == i2[k];
  }

  /** `build_key_index_and_header`: the header from the first line, then the
      last offset of every key value at the key column's position. A key
      column missing from the header fails before any data line is read. */
  function BuildKeyIndexAndHeader(text: string, keycol: string): (r: Result<Indexed, IndexError>)
    ensures r.Err? <==> keycol !in Header(text)
    ensures r.Err? ==> r.error == MissingKeyColumn(keycol)
    ensures r.Ok? ==> r.value.header == Header(text)
    ensures r.Ok? ==> exists keyIdx :: IndexOf(Header(text), keycol) == Some(keyIdx)
                                        && IsKeyIndex(text, keyIdx, r.value.index)
  {
    var header := Header(text);
    match IndexOf(header, keycol)
    case None => Err(MissingKeyColumn(keycol))
    case Some(keyIdx) =>
      ScanIsKeyIndex(text, keyIdx);
      Ok(Indexed(Scan(text, KeysOf(text, keyIdx), DataStart(text), map[]), header))
  }

  /** The same indexer written as the source's streaming loop: remember the
      offset, read one line, record its key; it agrees with the function. */
  method BuildKeyIndexStreaming(text: string, keycol: string) returns (r: Result<Indexed, IndexError>)
    ensures r == BuildKeyIndexAndHeader(text, keycol)
    ensures r.Ok? ==> exists keyIdx :: IndexOf(r.value.header, keycol) == Some(keyIdx)
                                        && IsKeyIndex(text, keyIdx, r.value.index)
  {
    var header := Fields(text, 0);
    var found := IndexOf(header, keycol);
    if found.None? {
      return Err(MissingKeyColumn(keycol));
    }
    var keyIdx := found.value;
    var index: map<string, nat> := map[];
    var offset := LineEnd(text, 0);
    while offset < |text|
      invariant offset <= |text|
      invariant Scan(text, KeysOf(text, keyIdx), offset, index) == Scan(text, KeysOf(text, keyIdx), DataStart(text), map[])
      decreases |text| - offset
    {
      var row := Fields(text, offset);
      if |row| > keyIdx {
        index := index[row[keyIdx] := offset];
      }
      offset := LineEnd(text, offset);
    }
    ScanIsKeyIndex(text, keyIdx);
    r := Ok(Indexed(index, header));
  }

  function Min(a: nat, b: nat): nat {
    if a < b then a else b
  }

  /** `dict(zip(names, values))`: the pairs up to the shorter length, a
      later repeated name overwriting an earlier one. */
  function ZipToMap(names: seq<string>, values: seq<string>): map<string, string> {
    if |names| == 0 || |values| == 0 then map[]
    else
      var rest := ZipToMap(names[1..], values[1..]);
      if names[0] in rest then rest else rest[names[0] := values[0]]
  }

  /** The keys of `dict(zip(names, values))` are the names paired with a
      value, and nothing else. */
  lemma {:induction false} ZipToMapKeys(names: seq<string>, values: seq<string>)
    ensures forall i :: 0 <= i < Min(|names|, |values|) ==> names[i] in ZipToMap(names, values)
    ensures forall k :: k in ZipToMap(names, values) ==> k in names[..Min(|names|, |values|)]
  {
    if |names| > 0 && |values| > 0 {
      ZipToMapKeys(names[1..], values[1..]);
      var n := Min(|names|, |values|);
      var m := ZipToMap(names, values);
      forall i | 0 <= i < n ensures names[i] in m {
        if i > 0 {
          assert names[1..][i - 1] == names[i];
        }
      }
      forall k | k in m ensures k in names[..n] {
        if k != names[0] {
          var j :| 0 <= j < n - 1 && names[1..][..n - 1][j] == k;
          assert names[..n][j + 1] == k;
        }
      }
    }
  }

  /** Each name paired with a value maps to the value paired with its LAST
      paired occurrence: a name not repeated later among the paired names
      maps to its own value (a repeat past the shorter length is ignored,
      as `zip` drops it). */
  lemma ZipToMapValues(names: seq<string>, values: seq<string>)
    ensures forall i :: 0 <= i < Min(|names|, |values|) && names[i] !in names[i + 1..Min(|names|, |values|)] ==>
              names[i] in ZipToMap(names, values) && ZipToMap(names, values)[names[i]] == values[i]
  {
    forall i | 0 <= i < Min(|names|, |values|) && names[i] !in names[i + 1..Min(|names|, |values|)]
      ensures names[i] in ZipToMap(names, values) && ZipToMap(names, values)[names[i]] == values[i]
    {
      ZipToMapValueAt(names, values, i);
    }
  }

  /** The value of one paired name with no later paired repeat. */
  lemma {:induction false} ZipToMapValueAt(names: seq<string>, values: seq<string>, i: nat)
    requires i < Min(|names|, |values|) && names[i] !in names[i + 1..Min(|names|, |values|)]
    ensures names[i] in ZipToMap(names, values) && ZipToMap(names, values)[names[i]] == values[i]
    decreases i
  {
    var n := Min(|names|, |values|);
    var rest := ZipToMap(names[1..], values[1..]);
    if i == 0 {
      ZipToMapKeys(names[1..], values[1..]);
      assert names[1..][..n - 1] == names[1..n];
      assert names[0] !in rest;
    } else {
      assert names[1..][i - 1] == names[i];
      assert names[1..][i..n - 1] == names[i + 1..n];
      ZipToMapValueAt(names[1..], values[1..], i - 1);
    }
  }

  /** `get_row_dict_by_offset`: the line at `offset` as a map from header
      names to its fields. Missing trailing fields leave their names out;
      extra fields are dropped; an offset at or past the end reads the empty
      line, whose single field is ''. */
  function GetRowDictByOffset(text: string, offset: nat, header: seq<string>): (row: map<string, string>)
    ensures forall i :: 0 <= i < Min(|header|, |Fields(text, offset)|) ==> header[i] in row
    ensures forall c :: c in row ==> c in header[..Min(|header|, |Fields(text, offset)|)]
    ensures forall i :: 0 <= i < Min(|header|, |Fields(text, offset)|)
                         && header[i] !in header[i + 1..Min(|header|, |Fields(text, offset)|)] ==>
              row[header[i]] == Fields(text, offset)[i]
  {
    ZipToMapKeys(header, Fields(text, offset));
    ZipToMapValues(header, Fields(text, offset));
    ZipToMap(header, Fields(text, offset))
  }

  /** Fetching a line that carries key `k` at the position of a header
      name that does not repeat after it gives `k` under that name. */
  lemma FetchKeyedLine(text: string, keyIdx: nat, o: nat, k: string, header: seq<string>)
    requires KeyAt(text, keyIdx, o) == Some(k)
    requires keyIdx < |header| && header[keyIdx] !in header[keyIdx + 1..]
    ensures var row := GetRowDictByOffset(text, o, header);
            header[keyIdx] in row && row[header[keyIdx]] == k
  {
    var fields := Fields(text, o);
    var n := Min(|header|, |fields|);
    assert keyIdx < n && fields[keyIdx] == k;
    assert header[keyIdx] !in header[keyIdx + 1..n] by {
      assert header[keyIdx + 1..n] == header[keyIdx + 1..][..n - keyIdx - 1];
    }
    ZipToMapValues(header, fields);
  }

  /** The central round trip: fetching the offset the index stores for `k`
      gives back a row whose key column holds `k`, provided the key column
      names exactly one header position. */
  lemma {:induction false} IndexFetchRoundTrip(text: string, keycol: string, k: string)
    requires BuildKeyIndexAndHeader(text, keycol).Ok?
    requires k in BuildKeyIndexAndHeader(text, keycol).value.index
    requires OccursOnce(Header(text), keycol)
    ensures var ix := BuildKeyIndexAndHeader(text, keycol).value;
            var row := GetRowDictByOffset(text, ix.index[k], ix.header);
            keycol in row && row[keycol] == k
  {
    var ix := BuildKeyIndexAndHeader(text, keycol).value;
    var keyIdx :| IndexOf(Header(text), keycol) == Some(keyIdx) && IsKeyIndex(text, keyIdx, ix.index);
    var header := ix.header;
    assert keycol !in header[keyIdx + 1..] by {
      OccursOnceAtIndex(header, keycol, keyIdx);
      forall j | keyIdx + 1 <= j < |header| ensures header[j] != keycol { }
    }
    assert KeyedLine(text, keyIdx, ix.index[k], k);
    FetchKeyedLine(text, keyIdx, ix.index[k], k, header);
  }

  /** How the indexer treats each data line: a line whose split reaches the
      key column enters the index under its key field, at its own offset or
      at a later line carrying the same key; a line too short to reach the
      key column is the entry of no key. */
  lemma DataLineIndexed(text: string, keycol: string, o: nat)
    requires BuildKeyIndexAndHeader(text, keycol).Ok?
    requires IsDataLine(text, o)
    ensures var index := BuildKeyIndexAndHeader(text, keycol).value.index;
            var keyIdx := IndexOf(Header(text), keycol).value;
            var fields := Fields(text, o);
            && (keyIdx < |fields| ==> fields[keyIdx] in index && o <= index[fields[keyIdx]])
            && (|fields| <= keyIdx ==> forall k :: k in index ==> index[k] != o)
  {
    var index := BuildKeyIndexAndHeader(text, keycol).value.index;
    var keyIdx :| IndexOf(Header(text), keycol) == Some(keyIdx) && IsKeyIndex(text, keyIdx, index);
    var fields := Fields(text, o);
    if keyIdx < |fields| {
      assert KeyedLine(text, keyIdx, o, fields[keyIdx]);
    } else {
      forall k | k in index ensures index[k] != o {
        assert KeyedLine(text, keyIdx, index[k], k);
      }
    }
  }

  /** A blank data line has the single field '': it is indexed under the
      empty key when the key is the first column and skipped otherwise. */
  lemma BlankLineKey(text: string, keyIdx: nat, o: nat)
    requires forall i :: 0 <= i < |ReadLine(text, o)| ==> IsSpace(ReadLine(text, o)[i])
    ensures KeyAt(text, keyIdx, o) == if keyIdx == 0 then Some("") else None
  {
    BlankLineFields(text, o);
  }

  /** A single header line: it ends with its only '\n'. */
  predicate IsHeaderLine(h: string) {
    |h| > 0 && h[|h| - 1] == '\n' && '\n' !in h[..|h| - 1]
  }

  /** Every entry moved `d` characters further into the file. */
  function Shift(m: map<string, nat>, d: nat): (r: map<string, nat>)
    ensures r.Keys == m.Keys
    ensures forall k :: k in m ==> r[k] == m[k] + d
  {
    map k | k in m :: m[k] + d
  }

  /** Line boundaries inside `b` are the same when `a` is put in front. */
  lemma {:induction false} LineEndShift(a: string, b: string, p: nat)
    requires p <= |b|
    ensures LineEnd(a + b, |a| + p) == |a| + LineEnd(b, p)
    decreases |b| - p
  {
    if p < |b| {
      assert (a + b)[|a| + p] == b[p];
      if b[p] != '\n' {
        LineEndShift(a, b, p + 1);
      }
    }
  }

  /** Reading a line inside `b` does not depend on what precedes `b`. */
  lemma ReadLineShift(a: string, b: string, o: nat)
    ensures ReadLine(a + b, |a| + o) == ReadLine(b, o)
  {
    if o < |b| {
      LineEndShift(a, b, o);
      assert (a + b)[|a| + o..|a| + LineEnd(b, o)] == b[o..LineEnd(b, o)];
    }
  }

  /** A text `t` that holds the lines of `b` from offset `d` on: the same
      line boundaries and the same keys, moved by `d`, from `p` on. */
  ghost predicate SameLinesFrom(t: string, kt: nat -> Option<string>, b: string, kb: nat -> Option<string>, d: nat, p: nat) {
    && |t| == d + |b|
    && forall q :: p <= q < |b| ==> LineEnd(t, d + q) == d + LineEnd(b, q) && kt(d + q) == kb(q)
  }

  /** Scanning the same lines moved by `d` records the same keys at offsets
      moved by `d`. */
  lemma {:induction false} ScanShift(t: string, kt: nat -> Option<string>, b: string, kb: nat -> Option<string>,
                                     d: nat, p: nat, acc: map<string, nat>)
    requires p <= |b| && SameLinesFrom(t, kt, b, kb, d, p)
    ensures Scan(t, kt, d + p, Shift(acc, d)) == Shift(Scan(b, kb, p, acc), d)
    decreases |b| - p
  {
    if p < |b| {
      var next := LineEnd(b, p);
      var acc' := Record(kb, p, acc);
      calc {
        Scan(t, kt, d + p, Shift(acc, d));
        Scan(t, kt, LineEnd(t, d + p), Record(kt, d + p, Shift(acc, d)));
        { RecordShift(kt, kb, d, p, acc); }
        Scan(t, kt, d + next, Shift(acc', d));
        { ScanShift(t, kt, b, kb, d, next, acc'); }
        Shift(Scan(b, kb, next, acc'), d);
      }
    }
  }

  /** One step of the scan commutes with moving the offsets by `d`. */
  lemma RecordShift(kt: nat -> Option<string>, kb: nat -> Option<string>, d: nat, p: nat, acc: map<string, nat>)
    requires kt(d + p) == kb(p)
    ensures Record(kt, d + p, Shift(acc, d)) == Shift(Record(kb, p, acc), d)
  {
    if kb(p).Some? {
      ShiftUpdate(acc, kb(p).value, p, d);
    }
  }

  lemma ShiftUpdate(m: map<string, nat>, k: string, o: nat, d: nat)
    ensures Shift(m, d)[k := o + d] == Shift(m[k := o], d)
  {
  }

  /** `a + b` holds the lines of `b` after `a`, each with the same key. */
  lemma ConcatSameLines(a: string, b: string, keyIdx: nat)
    ensures SameLinesFrom(a + b, KeysOf(a + b, keyIdx), b, KeysOf(b, keyIdx), |a|, 0)
  {
    forall q | 0 <= q < |b|
      ensures LineEnd(a + b, |a| + q) == |a| + LineEnd(b, q)
      ensures KeysOf(a + b, keyIdx)(|a| + q) == KeysOf(b, keyIdx)(q)
    {
      LineEndShift(a, b, q);
      KeysOfShift(a, b, keyIdx, q);
    }
  }

  lemma KeysOfShift(a: string, b: string, keyIdx: nat, o: nat)
    ensures KeysOf(a + b, keyIdx)(|a| + o) == KeysOf(b, keyIdx)(o)
  {
    assert KeysOf(a + b, keyIdx)(|a| + o) == KeyAt(a + b, keyIdx, |a| + o);
    assert KeysOf(b, keyIdx)(o) == KeyAt(b, keyIdx, o);
    KeyAtShift(a, b, keyIdx, o);
  }

  lemma KeyAtShift(a: string, b: string, keyIdx: nat, o: nat)
    ensures KeyAt(a + b, keyIdx, |a| + o) == KeyAt(b, keyIdx, o)
  {
    ReadLineShift(a, b, o);
  }

  /** The line of a header line, read at the start of its file. */
  lemma HeaderLineRead(h: string, body: string)
    requires IsHeaderLine(h)
    ensures DataStart(h + body) == |h|
    ensures ReadLine(h + body, 0) == h
  {
    var text := h + body;
    LineEndMeaning(text, 0);
    var e := LineEnd(text, 0);
    assert forall i :: 0 <= i < |h| - 1 ==> text[i] == h[..|h| - 1][i];
    assert text[|h| - 1] == '\n';
    assert e == |h|;
    assert text[0..e] == h;
  }

  /** The index of a file that starts with a header line: the scan of the
      lines after it, moved by the header line's length. */
  lemma IndexAfterHeaderLine(h: string, body: string, keycol: string)
    requires IsHeaderLine(h)
    ensures var r := BuildKeyIndexAndHeader(h + body, keycol);
            match IndexOf(Split(Strip(h)), keycol)
            case None => r.Err?
            case Some(keyIdx) =>
              r.Ok? && r.value.index == Shift(Scan(body, KeysOf(body, keyIdx), 0, map[]), |h|)
  {
    HeaderLineRead(h, body);
    assert Header(h + body) == Split(Strip(h));
    match IndexOf(Split(Strip(h)), keycol)
    case None =>
    case Some(keyIdx) =>
      ConcatSameLines(h, body, keyIdx);
      ScanShift(h + body, KeysOf(h + body, keyIdx), body, KeysOf(body, keyIdx), |h|, 0, map[]);
      assert Shift(map[], |h|) == map[];
  }

  /** Nothing in the header line affects the index but the key column's
      position: with the same data lines after two header lines that put
      the key at the same position, both indexes hold the same keys, each at
      the same offset counted from the end of its header. */
  lemma HeaderFixesOnlyKeyPosition(h1: string, h2: string, body: string, keycol: string)
    requires IsHeaderLine(h1) && IsHeaderLine(h2)
    requires IndexOf(Split(Strip(h1)), keycol) == IndexOf(Split(Strip(h2)), keycol)
    ensures var r1 := BuildKeyIndexAndHeader(h1 + body, keycol);
            var r2 := BuildKeyIndexAndHeader(h2 + body, keycol);
            && r1.Ok? == r2.Ok?
            && (r1.Ok? ==> r1.value.index.Keys == r2.value.index.Keys)
            && (r1.Ok? ==> forall k :: k in r1.value.index ==>
                  r1.value.index[k] - |h1| == r2.value.index[k] - |h2|)
  {
    IndexAfterHeaderLine(h1, body, keycol);
    IndexAfterHeaderLine(h2, body, keycol);
  }

  lemma SplitOneChar(c: char)
    requires c != ','
    ensures Split([c]) == [[c]]
  {
    assert [c][1..] == "";
    assert Split("") == [""];
    assert [c] + "" == [c];
  }

  /** The lines of the two-line file `k,k` / `a,b`, split. */
  lemma DuplicateKeyColumnLines()
    ensures LineEnd("k,k\na,b\n", 0) == 4 && LineEnd("k,k\na,b\n", 4) == 8
    ensures Fields("k,k\na,b\n", 0) == ["k", "k"] && Fields("k,k\na,b\n", 4) == ["a", "b"]
  {
    var text := "k,k\na,b\n";
    assert LineEnd(text, 3) == 4;
    assert LineEnd(text, 7) == 8;
    assert ReadLine(text, 0) == "k,k\n";
    assert ReadLine(text, 4) == "a,b\n";
    assert Strip("k,k\n") == "k,k";
    assert Strip("a,b\n") == "a,b";
    SplitOneChar('k');
    SplitOneChar('b');
    assert Split("k") == ["k"];
    assert Split(",k") == ["", "k"];
    assert "k,k"[1..] == ",k" && ",k"[1..] == "k";
    assert Split("k,k") == [['k'] + Split(",k")[0]] + Split(",k")[1..];
    assert ["", "k"][1..] == ["k"] && ['k'] + "" == "k";
    assert Split("b") == ["b"];
    assert "a,b"[1..] == ",b" && ",b"[1..] == "b";
    assert Split(",b") == ["", "b"];
    assert Split("a,b") == [['a'] + Split(",b")[0]] + Split(",b")[1..];
    assert ["", "b"][1..] == ["b"] && ['a'] + "" == "a";
  }

  /** Why the round trip asks for a key column named once: with the header
      `k,k` the index is built from the first `k` position while the fetched
      row keeps the last one, so the line indexed under `a` shows `b` under
      `k`. */
  lemma DuplicateKeyColumn()
    ensures var text := "k,k\na,b\n";
            var r := BuildKeyIndexAndHeader(text, "k");
            && r.Ok? && r.value.index == map["a" := 4]
            && GetRowDictByOffset(text, r.value.index["a"], r.value.header) == map["k" := "b"]
  {
    var text := "k,k\na,b\n";
    DuplicateKeyColumnLines();
    assert IndexOf(Header(text), "k") == Some(0);
    var keyOf := KeysOf(text, 0);
    assert keyOf(4) == Some("a");
    assert Scan(text, keyOf, 8, map["a" := 4]) == map["a" := 4];
    assert Scan(text, keyOf, 4, map[]) == map["a" := 4];
    assert ZipToMap(["k"], ["b"]) == map["k" := "b"];
  }
}
