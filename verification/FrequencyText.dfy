/** The written form of the frequency parameters: what `--null-freq-map` and
    `--values-freq-map` accept, and what they read from it. */
module FrequencyText {
  import opened Text
  import opened Sequences
  import opened Frequency
  import opened FrequencyParameters

  // `table.col=number;...`

  datatype NullWish = NullWish(table: string, col: string, number: string)

  /** Holds none of these separators. */
  predicate HasNone(text: string, separators: set<char>) {
    forall c <- separators :: c !in text
  }

  function WriteColumn(table: string, col: string): string {
    table + "." + col
  }

  function WriteNull(w: NullWish): string {
    WriteColumn(w.table, w.col) + "=" + w.number
  }

  predicate PlainColumn(table: string, col: string) {
    HasNone(table, {'.', '=', ';'}) && HasNone(col, {'.', '=', ';'})
  }

  predicate NullWritable(w: NullWish, parse: NumberParser) {
    PlainColumn(w.table, w.col) && HasNone(w.number, {'=', ';'}) && parse(w.number).Some?
  }

  function SettingOfNull(w: NullWish, parse: NumberParser): Setting
    requires NullWritable(w, parse)
  {
    SetNull(w.table, w.col, parse(w.number).value)
  }

  lemma ColumnRoundTrip(table: string, col: string)
    requires PlainColumn(table, col)
    ensures Split(WriteColumn(table, col), '.') == [table, col]
    ensures HasNone(WriteColumn(table, col), {'=', ';'})
  {
    SplitJoin([table, col], '.');
  }

  lemma ColumnReadBack(raw: string)
    requires HasNone(raw, {'=', ';'}) && |Split(raw, '.')| == 2
    ensures PlainColumn(Split(raw, '.')[0], Split(raw, '.')[1])
    ensures WriteColumn(Split(raw, '.')[0], Split(raw, '.')[1]) == raw
  {
    JoinSplit(raw, '.');
    SplitFree(raw, '.', '=');
    SplitFree(raw, '.', ';');
  }

  /** One element is accepted exactly if it is the written form of a wish, and
      then asks for just that. */
  lemma NullElement(raw: string, w: NullWish, parse: NumberParser)
    requires NullWritable(w, parse) && raw == WriteNull(w)
    ensures NullSetting(raw, parse) == Ok(SettingOfNull(w, parse)) && ';' !in raw
  {
    ColumnRoundTrip(w.table, w.col);
    SplitJoin([WriteColumn(w.table, w.col), w.number], '=');
    assert Split(raw, '=') == [WriteColumn(w.table, w.col), w.number];
  }

  lemma NullElementReadBack(raw: string, parse: NumberParser) returns (w: NullWish)
    requires ';' !in raw && NullSetting(raw, parse).Ok?
    ensures NullWritable(w, parse) && WriteNull(w) == raw
  {
    var parts := Split(raw, '=');
    JoinSplit(raw, '=');
    SplitFree(raw, '=', ';');
    ColumnReadBack(parts[0]);
    w := NullWish(Split(parts[0], '.')[0], Split(parts[0], '.')[1], parts[1]);
  }

  predicate AllNullWritable(ws: seq<NullWish>, parse: NumberParser) {
    forall w <- ws :: NullWritable(w, parse)
  }

  function WriteNulls(ws: seq<NullWish>): (raws: seq<string>)
    ensures |raws| == |ws|
  {
    if ws == [] then [] else [WriteNull(ws[0])] + WriteNulls(ws[1..])
  }

  function SettingsOfNulls(ws: seq<NullWish>, parse: NumberParser): seq<Setting>
    requires AllNullWritable(ws, parse)
  {
    if ws == [] then [] else [SettingOfNull(ws[0], parse)] + SettingsOfNulls(ws[1..], parse)
  }

  lemma {:induction false} NullElements(ws: seq<NullWish>, parse: NumberParser)
    requires AllNullWritable(ws, parse)
    ensures NullSettings(WriteNulls(ws), parse) == Parsed(SettingsOfNulls(ws, parse), None)
    ensures Free(WriteNulls(ws), ';')
  {
    if ws != [] {
      NullElement(WriteNull(ws[0]), ws[0], parse);
      NullElements(ws[1..], parse);
      assert WriteNulls(ws)[1..] == WriteNulls(ws[1..]);
    }
  }

  lemma {:induction false} NullElementsReadBack(raws: seq<string>, parse: NumberParser) returns (ws: seq<NullWish>)
    requires Free(raws, ';') && NullSettings(raws, parse).error.None?
    ensures AllNullWritable(ws, parse) && WriteNulls(ws) == raws
  {
    ws := [];
    if raws != [] {
      assert raws[0] in raws;
      var w := NullElementReadBack(raws[0], parse);
      var rest := NullElementsReadBack(raws[1..], parse);
      ws := [w] + rest;
      assert ws[1..] == rest;
    }
  }

  /** `text` is the written form of these wishes. */
  ghost predicate WritesNulls(text: string, ws: seq<NullWish>, parse: NumberParser) {
    ws != [] && AllNullWritable(ws, parse) && Join(WriteNulls(ws), ';') == text
  }

  /** Reading is the inverse of writing, and nothing else is accepted. */
  lemma NullRoundTrip(text: string, parse: NumberParser)
    ensures NullSettings(Split(text, ';'), parse).error.None? <==> exists ws :: WritesNulls(text, ws, parse)
    ensures forall ws | WritesNulls(text, ws, parse) ::
      NullSettings(Split(text, ';'), parse).settings == SettingsOfNulls(ws, parse)
  {
    forall ws | WritesNulls(text, ws, parse)
      ensures NullSettings(Split(text, ';'), parse) == Parsed(SettingsOfNulls(ws, parse), None)
    {
      NullElements(ws, parse);
      SplitJoin(WriteNulls(ws), ';');
    }
    if NullSettings(Split(text, ';'), parse).error.None? {
      JoinSplit(text, ';');
      var ws := NullElementsReadBack(Split(text, ';'), parse);
      assert WritesNulls(text, ws, parse);
    }
  }

  // `table.col=value:number,...;...`

  datatype ValueWish = ValueWish(value: string, number: string)

  datatype ColumnWish = ColumnWish(table: string, col: string, wishes: seq<ValueWish>)

  function WriteValue(v: ValueWish): string {
    v.value + ":" + v.number
  }

  predicate ValueWritable(v: ValueWish, parse: NumberParser) {
    && HasNone(v.value, {':', ',', '=', ';'}) && HasNone(v.number, {':', ',', '=', ';'}) && parse(v.number).Some?
  }

  predicate AllValuesWritable(vs: seq<ValueWish>, parse: NumberParser) {
    forall v <- vs :: ValueWritable(v, parse)
  }

  function WriteValues(vs: seq<ValueWish>): (raws: seq<string>)
    ensures |raws| == |vs|
  {
    if vs == [] then [] else [WriteValue(vs[0])] + WriteValues(vs[1..])
  }

  function SettingsOfValues(table: string, col: string, vs: seq<ValueWish>, parse: NumberParser): seq<Setting>
    requires AllValuesWritable(vs, parse)
  {
    if vs == [] then []
    else
      assert ValueWritable(vs[0], parse);
      [AddValues(table, col, [vs[0].value], [parse(vs[0].number).value])] + SettingsOfValues(table, col, vs[1..], parse)
  }

  lemma ValueElement(table: string, col: string, v: ValueWish, parse: NumberParser)
    requires ValueWritable(v, parse)
    ensures ValueSetting(table, col, WriteValue(v), parse)
         == Ok(AddValues(table, col, [v.value], [parse(v.number).value]))
    ensures HasNone(WriteValue(v), {',', '=', ';'})
  {
    SplitJoin([v.value, v.number], ':');
  }

  lemma ValueElementReadBack(table: string, col: string, raw: string, parse: NumberParser) returns (v: ValueWish)
    requires HasNone(raw, {',', '=', ';'}) && ValueSetting(table, col, raw, parse).Ok?
    ensures ValueWritable(v, parse) && WriteValue(v) == raw
  {
    JoinSplit(raw, ':');
    SplitFree(raw, ':', ',');
    SplitFree(raw, ':', '=');
    SplitFree(raw, ':', ';');
    v := ValueWish(Split(raw, ':')[0], Split(raw, ':')[1]);
  }

  ghost predicate AllHaveNone(raws: seq<string>, separators: set<char>) {
    forall raw <- raws :: HasNone(raw, separators)
  }

  lemma {:induction false} ValueElements(table: string, col: string, vs: seq<ValueWish>, parse: NumberParser)
    requires AllValuesWritable(vs, parse)
    ensures ValueSettingsOf(table, col, WriteValues(vs), parse) == Parsed(SettingsOfValues(table, col, vs, parse), None)
    ensures AllHaveNone(WriteValues(vs), {',', '=', ';'})
  {
    if vs != [] {
      ValueElement(table, col, vs[0], parse);
      ValueElements(table, col, vs[1..], parse);
      assert WriteValues(vs)[1..] == WriteValues(vs[1..]);
    }
  }

  lemma {:induction false} ValueElementsReadBack(table: string, col: string, raws: seq<string>, parse: NumberParser)
    returns (vs: seq<ValueWish>)
    requires AllHaveNone(raws, {',', '=', ';'}) && ValueSettingsOf(table, col, raws, parse).error.None?
    ensures AllValuesWritable(vs, parse) && WriteValues(vs) == raws
  {
    vs := [];
    if raws != [] {
      assert raws[0] in raws;
      var v := ValueElementReadBack(table, col, raws[0], parse);
      var rest := ValueElementsReadBack(table, col, raws[1..], parse);
      vs := [v] + rest;
      assert vs[1..] == rest;
    }
  }

  predicate ColumnWritable(w: ColumnWish, parse: NumberParser) {
    PlainColumn(w.table, w.col) && w.wishes != [] && AllValuesWritable(w.wishes, parse)
  }

  function WriteWish(w: ColumnWish): string
    requires w.wishes != []
  {
    WriteColumn(w.table, w.col) + "=" + Join(WriteValues(w.wishes), ',')
  }

  lemma ColumnElement(w: ColumnWish, parse: NumberParser)
    requires ColumnWritable(w, parse)
    ensures ValueArg(WriteWish(w), parse) == Parsed(SettingsOfValues(w.table, w.col, w.wishes, parse), None)
    ensures ';' !in WriteWish(w)
  {
    var values := WriteValues(w.wishes);
    ColumnRoundTrip(w.table, w.col);
    ValueElements(w.table, w.col, w.wishes, parse);
    JoinFree(values, ',', '=');
    JoinFree(values, ',', ';');
    SplitJoin(values, ',');
    SplitJoin([WriteColumn(w.table, w.col), Join(values, ',')], '=');
    assert Split(WriteWish(w), '=') == [WriteColumn(w.table, w.col), Join(values, ',')];
  }

  lemma ColumnElementReadBack(raw: string, parse: NumberParser) returns (w: ColumnWish)
    requires ';' !in raw && ValueArg(raw, parse).error.None?
    ensures ColumnWritable(w, parse) && WriteWish(w) == raw
  {
    var parts := Split(raw, '=');
    JoinSplit(raw, '=');
    SplitFree(raw, '=', ';');
    ColumnReadBack(parts[0]);
    var column, values := Split(parts[0], '.'), Split(parts[1], ',');
    JoinSplit(parts[1], ',');
    SplitFree(parts[1], ',', '=');
    SplitFree(parts[1], ',', ';');
    var vs := ValueElementsReadBack(column[0], column[1], values, parse);
    w := ColumnWish(column[0], column[1], vs);
  }

  predicate AllColumnsWritable(ws: seq<ColumnWish>, parse: NumberParser) {
    forall w <- ws :: ColumnWritable(w, parse)
  }

  function WriteWishes(ws: seq<ColumnWish>): (raws: seq<string>)
    requires forall w <- ws :: w.wishes != []
    ensures |raws| == |ws|
  {
    if ws == [] then [] else [WriteWish(ws[0])] + WriteWishes(ws[1..])
  }

  function SettingsOfWishes(ws: seq<ColumnWish>, parse: NumberParser): seq<Setting>
    requires AllColumnsWritable(ws, parse)
  {
    if ws == [] then []
    else
      assert ColumnWritable(ws[0], parse);
      SettingsOfValues(ws[0].table, ws[0].col, ws[0].wishes, parse) + SettingsOfWishes(ws[1..], parse)
  }

  lemma {:induction false} ColumnElements(ws: seq<ColumnWish>, parse: NumberParser)
    requires AllColumnsWritable(ws, parse)
    ensures ValueSettings(WriteWishes(ws), parse) == Parsed(SettingsOfWishes(ws, parse), None)
    ensures Free(WriteWishes(ws), ';')
  {
    if ws != [] {
      ColumnElement(ws[0], parse);
      ColumnElements(ws[1..], parse);
      assert WriteWishes(ws)[1..] == WriteWishes(ws[1..]);
    }
  }

  lemma {:induction false} ColumnElementsReadBack(raws: seq<string>, parse: NumberParser) returns (ws: seq<ColumnWish>)
    requires Free(raws, ';') && ValueSettings(raws, parse).error.None?
    ensures AllColumnsWritable(ws, parse) && WriteWishes(ws) == raws
  {
    ws := [];
    if raws != [] {
      assert raws[0] in raws;
      var w := ColumnElementReadBack(raws[0], parse);
      var rest := ColumnElementsReadBack(raws[1..], parse);
      ws := [w] + rest;
      assert ws[1..] == rest;
    }
  }

  ghost predicate WritesWishes(text: string, ws: seq<ColumnWish>, parse: NumberParser) {
    ws != [] && AllColumnsWritable(ws, parse) && Join(WriteWishes(ws), ';') == text
  }

  /** The same for the values: each column's list, in the order it is written. */
  lemma ValuesRoundTrip(text: string, parse: NumberParser)
    ensures ValueSettings(Split(text, ';'), parse).error.None? <==> exists ws :: WritesWishes(text, ws, parse)
    ensures forall ws | WritesWishes(text, ws, parse) ::
      ValueSettings(Split(text, ';'), parse).settings == SettingsOfWishes(ws, parse)
  {
    forall ws | WritesWishes(text, ws, parse)
      ensures ValueSettings(Split(text, ';'), parse) == Parsed(SettingsOfWishes(ws, parse), None)
    {
      ColumnElements(ws, parse);
      SplitJoin(WriteWishes(ws), ';');
    }
    if ValueSettings(Split(text, ';'), parse).error.None? {
      JoinSplit(text, ';');
      var ws := ColumnElementsReadBack(Split(text, ';'), parse);
      assert WritesWishes(text, ws, parse);
    }
  }

  // What the columns get from a text that is read.

  lemma {:induction false} NullSettingAt(ws: seq<NullWish>, parse: NumberParser, k: nat)
    requires AllNullWritable(ws, parse) && k < |ws|
    ensures |SettingsOfNulls(ws, parse)| == |ws| && parse(ws[k].number).Some?
    ensures SettingsOfNulls(ws, parse)[k] == SetNull(ws[k].table, ws[k].col, parse(ws[k].number).value)
  {
    assert NullWritable(ws[0], parse);
    if k > 0 {
      NullSettingAt(ws[1..], parse, k - 1);
    } else if |ws| > 1 {
      NullSettingAt(ws[1..], parse, 0);
    }
  }

  ghost predicate LastAbout(ws: seq<NullWish>, k: nat) {
    k < |ws| && forall j | k < j < |ws| :: ws[j].table != ws[k].table || ws[j].col != ws[k].col
  }

  lemma CutAtNull(ws: seq<NullWish>, parse: NumberParser, k: nat)
    requires AllNullWritable(ws, parse) && LastAbout(ws, k)
    ensures parse(ws[k].number).Some? && |SettingsOfNulls(ws, parse)| == |ws|
    ensures
      var ss := SettingsOfNulls(ws, parse);
      && ss == ss[..k] + [SetNull(ws[k].table, ws[k].col, parse(ws[k].number).value)] + ss[k + 1..]
      && AllPaired(ss[k + 1..]) && NoNullAbout(ss[k + 1..], ws[k].table, ws[k].col)
  {
    var ss := SettingsOfNulls(ws, parse);
    NullSettingAt(ws, parse, k);
    forall s | s in ss[k + 1..]
      ensures s.SetNull? && (s.table != ws[k].table || s.col != ws[k].col)
    {
      var j :| k + 1 <= j < |ss| && ss[j] == s;
      NullSettingAt(ws, parse, j);
    }
  }

  /** A nullable column is NULL for the draws below the last number written for it. */
  lemma NullsRead(t: Tables, text: string, ws: seq<NullWish>, parse: NumberParser, k: nat, defaultFreq: real,
                  draw: real)
    requires WritesNulls(text, ws, parse) && LastAbout(ws, k)
    ensures
      var parsed, freq := NullSettings(Split(text, ';'), parse), parse(ws[k].number);
      var result := ApplyAll(t, parsed.settings);
      && parsed.error.None? && freq.Some? && ws[k].table in result
      && (Null(result[ws[k].table], ws[k].col, true, defaultFreq, draw) <==> 0.0 < freq.value && draw < freq.value)
      && !Null(result[ws[k].table], ws[k].col, false, defaultFreq, draw)
  {
    NullRoundTrip(text, parse);
    CutAtNull(ws, parse, k);
    var ss := SettingsOfNulls(ws, parse);
    AskedSinceLastNull(t, ss[..k], ws[k].table, ws[k].col, parse(ws[k].number).value, ss[k + 1..], defaultFreq, draw);
  }

  /** The values of a list of wishes, with the numbers written for them. */
  function Numbered(vs: seq<ValueWish>, parse: NumberParser): (pairs: seq<(string, real)>)
    requires AllValuesWritable(vs, parse)
    ensures |pairs| == |vs|
    ensures forall i | 0 <= i < |vs| :: pairs[i].0 == vs[i].value && parse(vs[i].number) == Some(pairs[i].1)
  {
    if vs == [] then []
    else
      assert ValueWritable(vs[0], parse);
      [(vs[0].value, parse(vs[0].number).value)] + Numbered(vs[1..], parse)
  }

  /** All that is written for a column, in order. */
  function Wished(ws: seq<ColumnWish>, parse: NumberParser, table: string, col: string): seq<(string, real)>
    requires AllColumnsWritable(ws, parse)
  {
    if ws == [] then []
    else
      assert ColumnWritable(ws[0], parse);
      (if ws[0].table == table && ws[0].col == col then Numbered(ws[0].wishes, parse) else [])
      + Wished(ws[1..], parse, table, col)
  }

  lemma {:induction false} AskedBoth(a: seq<Setting>, b: seq<Setting>, table: string, col: string)
    requires AllPaired(a) && AllPaired(b)
    ensures AllPaired(a + b) && Asked(a + b, table, col) == Asked(a, table, col) + Asked(b, table, col)
    decreases |a|
  {
    NoneBefore(b);
    if a != [] {
      assert a[0] in a && a == [a[0]] + a[1..] && (a + b)[1..] == a[1..] + b;
      AskedBoth(a[1..], b, table, col);
    } else {
      NoneBefore(Asked(b, table, col));
    }
  }

  lemma {:induction false} ValuesAsk(own: string, ownCol: string, vs: seq<ValueWish>, parse: NumberParser,
                                     table: string, col: string)
    requires AllValuesWritable(vs, parse)
    ensures
      var ss := SettingsOfValues(own, ownCol, vs, parse);
      && OnlyValues(ss) && AllPaired(ss)
      && Asked(ss, table, col) == if own == table && ownCol == col then Numbered(vs, parse) else []
  {
    if vs != [] {
      var rest := SettingsOfValues(own, ownCol, vs[1..], parse);
      assert ValueWritable(vs[0], parse);
      var s := AddValues(own, ownCol, [vs[0].value], [parse(vs[0].number).value]);
      ValuesAsk(own, ownCol, vs[1..], parse, table, col);
      assert ([s] + rest)[1..] == rest;
    }
  }

  lemma {:induction false} WishesAsk(ws: seq<ColumnWish>, parse: NumberParser, table: string, col: string)
    requires AllColumnsWritable(ws, parse)
    ensures
      var ss := SettingsOfWishes(ws, parse);
      OnlyValues(ss) && AllPaired(ss) && Asked(ss, table, col) == Wished(ws, parse, table, col)
  {
    if ws != [] {
      assert ColumnWritable(ws[0], parse);
      ValuesAsk(ws[0].table, ws[0].col, ws[0].wishes, parse, table, col);
      WishesAsk(ws[1..], parse, table, col);
      AskedBoth(SettingsOfValues(ws[0].table, ws[0].col, ws[0].wishes, parse), SettingsOfWishes(ws[1..], parse), table,
                col);
    }
  }

  /** A column has the values it had and those written for it, in order, each with
      its own number; its NULL frequency stays. */
  lemma ValuesRead(t: Tables, text: string, ws: seq<ColumnWish>, parse: NumberParser, table: string, col: string)
    requires WritesWishes(text, ws, parse) && Fitting(Entry(t, table, col))
    ensures
      var parsed := ValueSettings(Split(text, ';'), parse);
      var before, after := Entry(t, table, col), Entry(ApplyAll(t, parsed.settings), table, col);
      && parsed.error.None? && Fitting(after)
      && PairsOf(after) == PairsOf(before) + Wished(ws, parse, table, col)
      && (after.Some? ==> after.value.nullFreq == if before.Some? then before.value.nullFreq else 0.0)
  {
    ValuesRoundTrip(text, parse);
    WishesAsk(ws, parse, table, col);
    ValuesAskedFor(t, SettingsOfWishes(ws, parse), table, col);
  }
}
