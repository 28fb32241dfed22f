/** The two frequency parameters and the values found in queries, merged into
    one table of frequencies (frequency/frequency.go). */
module FrequencyParameters {
  import opened Text
  import opened Sequences
  import opened Frequency

  type Tables = map<string, ColumnFrequency>

  /** One change a parameter asks for. */
  datatype Setting =
    | SetNull(table: string, col: string, freq: real)
    | AddValues(table: string, col: string, values: seq<string>, freqs: seq<real>)

  function Entry(t: Tables, table: string, col: string): Option<Frequency> {
    if table in t && col in t[table] then Some(t[table][col]) else None
  }

  function Put(t: Tables, table: string, col: string, f: Frequency): Tables {
    t[table := (if table in t then t[table] else map[])[col := f]]
  }

  /** A NULL frequency replaces the whole entry; values are added to it, and an
      entry that values create has NULL frequency zero. */
  function Changed(f: Option<Frequency>, s: Setting): Frequency {
    match s
    case SetNull(_, _, freq) => Frequency(freq, [], [])
    case AddValues(_, _, values, freqs) =>
      var old' := if f.Some? then f.value else Frequency(0.0, [], []);
      Frequency(old'.nullFreq, old'.indexValues + values, old'.indexFrequencies + freqs)
  }

  function Apply(t: Tables, s: Setting): Tables {
    Put(t, s.table, s.col, Changed(Entry(t, s.table, s.col), s))
  }

  function ApplyAll(t: Tables, ss: seq<Setting>): Tables
    decreases |ss|
  {
    if ss == [] then t else ApplyAll(Apply(t, ss[0]), ss[1..])
  }

  lemma {:induction false} ApplyOneMore(t: Tables, ss: seq<Setting>, s: Setting)
    ensures ApplyAll(t, ss + [s]) == Apply(ApplyAll(t, ss), s)
    decreases |ss|
  {
    if ss == [] {
      assert [s][1..] == [];
    } else {
      ApplyOneMore(Apply(t, ss[0]), ss[1..], s);
      assert (ss + [s])[1..] == ss[1..] + [s];
    }
  }

  lemma {:induction false} ApplyBoth(t: Tables, a: seq<Setting>, b: seq<Setting>)
    ensures ApplyAll(t, a + b) == ApplyAll(ApplyAll(t, a), b)
    decreases |a|
  {
    if a == [] {
      assert a + b == b;
    } else {
      ApplyBoth(Apply(t, a[0]), a[1..], b);
      assert (a + b)[1..] == a[1..] + b;
    }
  }

  // Reading the parameters.

  datatype ParameterError = Malformed | NotANumber

  type NumberParser = string -> Option<real>

  /** `table.col` */
  function TableCol(text: string): Option<(string, string)> {
    var parts := Split(text, '.');
    if |parts| != 2 then None else Some((parts[0], parts[1]))
  }

  /** `table.col=0.63` */
  function NullSetting(arg: string, parse: NumberParser): Result<Setting, ParameterError> {
    var parts := Split(arg, '=');
    if |parts| != 2 then Err(Malformed) else
    var tableCol := TableCol(parts[0]);
    if tableCol.None? then Err(Malformed) else
    var freq := parse(parts[1]);
    if freq.None? then Err(NotANumber) else Ok(SetNull(tableCol.value.0, tableCol.value.1, freq.value))
  }

  /** What a parameter asks for, up to its first mistake. */
  datatype Parsed = Parsed(settings: seq<Setting>, error: Option<ParameterError>) {
    function After(first: seq<Setting>): Parsed {
      Parsed(first + settings, error)
    }
  }

  function NullSettings(args: seq<string>, parse: NumberParser): Parsed {
    if args == [] then Parsed([], None)
    else match NullSetting(args[0], parse)
      case Err(e) => Parsed([], Some(e))
      case Ok(s) => NullSettings(args[1..], parse).After([s])
  }

  /** `val:0.925` */
  function ValueSetting(table: string, col: string, text: string, parse: NumberParser): Result<Setting, ParameterError>
  {
    var parts := Split(text, ':');
    if |parts| != 2 then Err(Malformed) else
    var freq := parse(parts[1]);
    if freq.None? then Err(NotANumber) else Ok(AddValues(table, col, [parts[0]], [freq.value]))
  }

  function ValueSettingsOf(table: string, col: string, texts: seq<string>, parse: NumberParser): Parsed {
    if texts == [] then Parsed([], None)
    else match ValueSetting(table, col, texts[0], parse)
      case Err(e) => Parsed([], Some(e))
      case Ok(s) => ValueSettingsOf(table, col, texts[1..], parse).After([s])
  }

  /** `table.col=web:0.925,cloud:0.17` */
  function ValueArg(arg: string, parse: NumberParser): Parsed {
    var parts := Split(arg, '=');
    if |parts| != 2 then Parsed([], Some(Malformed)) else
    var tableCol := TableCol(parts[0]);
    if tableCol.None? then Parsed([], Some(Malformed)) else
    ValueSettingsOf(tableCol.value.0, tableCol.value.1, Split(parts[1], ','), parse)
  }

  function ValueSettings(args: seq<string>, parse: NumberParser): Parsed {
    if args == [] then Parsed([], None)
    else
      var first := ValueArg(args[0], parse);
      if first.error.Some? then first else ValueSettings(args[1..], parse).After(first.settings)
  }

  lemma AfterTwice(p: Parsed, a: seq<Setting>, b: seq<Setting>)
    ensures p.After(b).After(a) == p.After(a + b)
  {
    assert a + (b + p.settings) == (a + b) + p.settings;
  }

  lemma AfterNothing(p: Parsed, done: seq<Setting>)
    ensures p.After([]) == p && Parsed([], p.error).After(done) == Parsed(done, p.error)
  {
    assert [] + p.settings == p.settings && done + [] == done;
  }

  class FrequencyStore {
    var tables: Tables

    /** Values and their frequencies go in pairs: what the draws rely on. */
    ghost predicate Valid()
      reads this
    {
      forall table <- tables, col <- tables[table] :: tables[table][col].Valid()
    }

    constructor ()
      ensures tables == map[] && Valid()
    {
      tables := map[];
    }

    method Change(s: Setting)
      requires Valid() && (s.AddValues? ==> |s.values| == |s.freqs|)
      modifies this
      ensures Valid() && tables == Apply(old(tables), s)
    {
      tables := Apply(tables, s);
    }

    /** The settings before a mistake stay. */
    method DecodeNull(value: string, parse: NumberParser) returns (error: Option<ParameterError>)
      requires Valid()
      modifies this
      ensures Valid()
      ensures
        var parsed := if value == "" then Parsed([], None) else NullSettings(Split(value, ';'), parse);
        error == parsed.error && tables == ApplyAll(old(tables), parsed.settings)
    {
      if value == "" {
        return None;
      }
      var args := Split(value, ';');
      ghost var all, done := NullSettings(args, parse), [];
      assert args[0..] == args;
      AfterNothing(all, []);
      for i := 0 to |args|
        invariant Valid() && tables == ApplyAll(old(tables), done)
        invariant all == NullSettings(args[i..], parse).After(done)
      {
        assert args[i..][0] == args[i] && args[i..][1..] == args[i + 1..];
        match NullSetting(args[i], parse)
        case Err(e) =>
          AfterNothing(Parsed([], Some(e)), done);
          return Some(e);
        case Ok(s) =>
          Change(s);
          ApplyOneMore(old(tables), done, s);
          AfterTwice(NullSettings(args[i + 1..], parse), done, [s]);
          done := done + [s];
      }
      AfterNothing(Parsed([], None), done);
      error := None;
    }

    method DecodeValueList(table: string, col: string, texts: seq<string>, parse: NumberParser)
      returns (error: Option<ParameterError>)
      requires Valid()
      modifies this
      ensures Valid()
      ensures
        var parsed := ValueSettingsOf(table, col, texts, parse);
        error == parsed.error && tables == ApplyAll(old(tables), parsed.settings)
    {
      ghost var all, done := ValueSettingsOf(table, col, texts, parse), [];
      assert texts[0..] == texts;
      AfterNothing(all, []);
      for i := 0 to |texts|
        invariant Valid() && tables == ApplyAll(old(tables), done)
        invariant all == ValueSettingsOf(table, col, texts[i..], parse).After(done)
      {
        assert texts[i..][0] == texts[i] && texts[i..][1..] == texts[i + 1..];
        match ValueSetting(table, col, texts[i], parse)
        case Err(e) =>
          AfterNothing(Parsed([], Some(e)), done);
          return Some(e);
        case Ok(s) =>
          Change(s);
          ApplyOneMore(old(tables), done, s);
          AfterTwice(ValueSettingsOf(table, col, texts[i + 1..], parse), done, [s]);
          done := done + [s];
      }
      AfterNothing(Parsed([], None), done);
      error := None;
    }

    method DecodeIndexValues(value: string, parse: NumberParser) returns (error: Option<ParameterError>)
      requires Valid()
      modifies this
      ensures Valid()
      ensures
        var parsed := if value == "" then Parsed([], None) else ValueSettings(Split(value, ';'), parse);
        error == parsed.error && tables == ApplyAll(old(tables), parsed.settings)
    {
      if value == "" {
        return None;
      }
      var args := Split(value, ';');
      ghost var all, done := ValueSettings(args, parse), [];
      assert args[0..] == args;
      AfterNothing(all, []);
      for i := 0 to |args|
        invariant Valid() && tables == ApplyAll(old(tables), done)
        invariant all == ValueSettings(args[i..], parse).After(done)
      {
        assert args[i..][0] == args[i] && args[i..][1..] == args[i + 1..];
        ghost var first := ValueArg(args[i], parse);
        ApplyBoth(old(tables), done, first.settings);
        var parts := Split(args[i], '=');
        if |parts| != 2 {
          AfterNothing(Parsed([], Some(Malformed)), done);
          return Some(Malformed);
        }
        var tableCol := TableCol(parts[0]);
        if tableCol.None? {
          AfterNothing(Parsed([], Some(Malformed)), done);
          return Some(Malformed);
        }
        error := DecodeValueList(tableCol.value.0, tableCol.value.1, Split(parts[1], ','), parse);
        if error.Some? {
          return;
        }
        AfterTwice(ValueSettings(args[i + 1..], parse), done, first.settings);
        done := done + first.settings;
      }
      AfterNothing(Parsed([], None), done);
      error := None;
    }

    /** Values that a query compares a column with, each with the same frequency. */
    method MergeQueryParameters(params: seq<(string, seq<string>)>, defaultFrequency: real)
      requires Valid()
      modifies this
      ensures Valid() && tables == ApplyAll(old(tables), QuerySettings(params, defaultFrequency))
    {
      ghost var start := tables;
      assert params[0..] == params;
      for i := 0 to |params|
        invariant Valid()
        invariant Merged(tables, params[i..], defaultFrequency) == Merged(start, params, defaultFrequency)
      {
        OneMerged(tables, params, i, defaultFrequency);
        var tableCol := TableCol(params[i].0);
        if tableCol.Some? {
          Change(AddValues(tableCol.value.0, tableCol.value.1, params[i].1, seq(|params[i].1|, _ => defaultFrequency)));
        }
      }
    }
  }

  /** What one column of the query asks for; nothing if its name is malformed. */
  function QuerySetting(param: (string, seq<string>), defaultFrequency: real): Option<Setting> {
    var tableCol := TableCol(param.0);
    if tableCol.None? then None
    else Some(AddValues(tableCol.value.0, tableCol.value.1, param.1, seq(|param.1|, _ => defaultFrequency)))
  }

  function QuerySettings(params: seq<(string, seq<string>)>, defaultFrequency: real): seq<Setting> {
    if params == [] then []
    else
      var s := QuerySetting(params[0], defaultFrequency);
      (if s.None? then [] else [s.value]) + QuerySettings(params[1..], defaultFrequency)
  }

  function Merged(t: Tables, params: seq<(string, seq<string>)>, defaultFrequency: real): Tables {
    ApplyAll(t, QuerySettings(params, defaultFrequency))
  }

  function MergeOne(t: Tables, param: (string, seq<string>), defaultFrequency: real): Tables {
    var s := QuerySetting(param, defaultFrequency);
    if s.None? then t else Apply(t, s.value)
  }

  lemma FirstMerged(t: Tables, params: seq<(string, seq<string>)>, defaultFrequency: real)
    requires params != []
    ensures Merged(t, params, defaultFrequency)
         == Merged(MergeOne(t, params[0], defaultFrequency), params[1..], defaultFrequency)
  {
    var s, rest := QuerySetting(params[0], defaultFrequency), QuerySettings(params[1..], defaultFrequency);
    if s.None? {
      assert [] + rest == rest;
    } else {
      assert ([s.value] + rest)[1..] == rest;
    }
  }

  lemma OneMerged(t: Tables, params: seq<(string, seq<string>)>, i: nat, defaultFrequency: real)
    requires i < |params|
    ensures Merged(t, params[i..], defaultFrequency)
         == Merged(MergeOne(t, params[i], defaultFrequency), params[i + 1..], defaultFrequency)
  {
    FirstMerged(t, params[i..], defaultFrequency);
    assert params[i..][0] == params[i] && params[i..][1..] == params[i + 1..];
  }

  // The program ranges over a map: in any order.

  lemma PutCommutes(t: Tables, table1: string, col1: string, f1: Frequency, table2: string, col2: string, f2: Frequency)
    requires table1 != table2 || col1 != col2
    ensures Put(Put(t, table1, col1, f1), table2, col2, f2) == Put(Put(t, table2, col2, f2), table1, col1, f1)
  {
    if table1 == table2 {
      var columns := if table1 in t then t[table1] else map[];
      assert columns[col1 := f1][col2 := f2] == columns[col2 := f2][col1 := f1];
      assert Put(Put(t, table1, col1, f1), table2, col2, f2) == t[table1 := columns[col1 := f1][col2 := f2]];
      assert Put(Put(t, table2, col2, f2), table1, col1, f1) == t[table1 := columns[col2 := f2][col1 := f1]];
    }
  }

  lemma PutElsewhere(t: Tables, table: string, col: string, f: Frequency, table2: string, col2: string)
    requires table != table2 || col != col2
    ensures Entry(Put(t, table, col, f), table2, col2) == Entry(t, table2, col2)
  {
  }

  /** Settings about different columns can change places. */
  lemma ApplyCommutes(t: Tables, a: Setting, b: Setting)
    requires a.table != b.table || a.col != b.col
    ensures Apply(Apply(t, a), b) == Apply(Apply(t, b), a)
  {
    var f, g := Changed(Entry(t, a.table, a.col), a), Changed(Entry(t, b.table, b.col), b);
    PutElsewhere(t, a.table, a.col, f, b.table, b.col);
    PutElsewhere(t, b.table, b.col, g, a.table, a.col);
    PutCommutes(t, a.table, a.col, f, b.table, b.col, g);
  }

  lemma TableColInjective(a: string, b: string)
    requires TableCol(a).Some? && TableCol(a) == TableCol(b)
    ensures a == b
  {
    JoinSplit(a, '.');
    JoinSplit(b, '.');
    assert Split(a, '.') == [Split(a, '.')[0], Split(a, '.')[1]] == Split(b, '.');
  }

  lemma MergeCommutes(t: Tables, p: (string, seq<string>), q: (string, seq<string>), defaultFrequency: real)
    requires p.0 != q.0
    ensures MergeOne(MergeOne(t, p, defaultFrequency), q, defaultFrequency)
         == MergeOne(MergeOne(t, q, defaultFrequency), p, defaultFrequency)
  {
    var a, b := QuerySetting(p, defaultFrequency), QuerySetting(q, defaultFrequency);
    if a.Some? && b.Some? {
      if TableCol(p.0) == TableCol(q.0) {
        TableColInjective(p.0, q.0);
      }
      ApplyCommutes(t, a.value, b.value);
    }
  }

  /** The keys of a map are distinct. */
  ghost predicate DistinctKeys(params: seq<(string, seq<string>)>) {
    forall i, j | 0 <= i < j < |params| :: params[i].0 != params[j].0
  }

  lemma {:induction false} MergeFirst(t: Tables, params: seq<(string, seq<string>)>, i: nat, defaultFrequency: real)
    requires DistinctKeys(params) && i < |params|
    ensures Merged(t, params, defaultFrequency)
         == Merged(MergeOne(t, params[i], defaultFrequency), Without(params, i), defaultFrequency)
    decreases i
  {
    FirstMerged(t, params, defaultFrequency);
    if i == 0 {
      assert Without(params, 0) == params[1..];
    } else {
      var rest, less := params[1..], Without(params, i);
      MergeFirst(MergeOne(t, params[0], defaultFrequency), rest, i - 1, defaultFrequency);
      MergeCommutes(t, params[0], params[i], defaultFrequency);
      WithoutTail(params, i);
      FirstMerged(MergeOne(t, params[i], defaultFrequency), less, defaultFrequency);
    }
  }

  lemma LessDistinct(params: seq<(string, seq<string>)>, i: nat)
    requires DistinctKeys(params) && i < |params|
    ensures DistinctKeys(Without(params, i))
  {
    var less := Without(params, i);
    assert forall k | 0 <= k < |less| :: less[k] == params[if k < i then k else k + 1];
  }

  /** The order in which the program goes through the map makes no difference. */
  lemma {:induction false} MergeOrderIrrelevant(t: Tables, a: seq<(string, seq<string>)>, b: seq<(string, seq<string>)>,
                                                defaultFrequency: real)
    requires DistinctKeys(a) && DistinctKeys(b) && multiset(a) == multiset(b)
    ensures Merged(t, a, defaultFrequency) == Merged(t, b, defaultFrequency)
    decreases |a|
  {
    if a == [] {
      assert |b| == |multiset(b)| == |multiset(a)| == 0;
    } else {
      var i := SameWithoutFirst(a, b);
      LessDistinct(a, 0);
      LessDistinct(b, i);
      assert Without(a, 0) == a[1..];
      FirstMerged(t, a, defaultFrequency);
      MergeFirst(t, b, i, defaultFrequency);
      MergeOrderIrrelevant(MergeOne(t, a[0], defaultFrequency), a[1..], Without(b, i), defaultFrequency);
    }
  }

  // What comes of it, column by column.

  predicate About(s: Setting, table: string, col: string) {
    s.table == table && s.col == col
  }

  /** One column only sees the settings about it. */
  function Effect(f: Option<Frequency>, ss: seq<Setting>, table: string, col: string): Option<Frequency>
    decreases |ss|
  {
    if ss == [] then f
    else Effect(if About(ss[0], table, col) then Some(Changed(f, ss[0])) else f, ss[1..], table, col)
  }

  lemma {:induction false} EntryAfterAll(t: Tables, ss: seq<Setting>, table: string, col: string)
    ensures Entry(ApplyAll(t, ss), table, col) == Effect(Entry(t, table, col), ss, table, col)
    decreases |ss|
  {
    if ss != [] {
      EntryAfterAll(Apply(t, ss[0]), ss[1..], table, col);
    }
  }

  lemma {:induction false} EffectOfBoth(f: Option<Frequency>, a: seq<Setting>, b: seq<Setting>, table: string,
                                        col: string)
    ensures Effect(f, a + b, table, col) == Effect(Effect(f, a, table, col), b, table, col)
    decreases |a|
  {
    if a == [] {
      assert a + b == b;
    } else {
      EffectOfBoth(if About(a[0], table, col) then Some(Changed(f, a[0])) else f, a[1..], b, table, col);
      assert (a + b)[1..] == a[1..] + b;
    }
  }

  /** A NULL frequency makes the program forget whatever was asked for the column
      before, values included: the order of the parameters matters. */
  lemma NullForgetsValues(t: Tables, before: seq<Setting>, table: string, col: string, freq: real, after: seq<Setting>)
    ensures Entry(ApplyAll(t, before + [SetNull(table, col, freq)] + after), table, col)
         == Effect(Some(Frequency(freq, [], [])), after, table, col)
  {
    var s := SetNull(table, col, freq);
    EntryAfterAll(t, before + [s] + after, table, col);
    EffectOfBoth(Entry(t, table, col), before + [s], after, table, col);
    EffectOfBoth(Entry(t, table, col), before, [s], table, col);
    assert [s][1..] == [];
  }

  predicate OnlyValues(ss: seq<Setting>) {
    forall i | 0 <= i < |ss| :: ss[i].AddValues?
  }

  lemma {:induction false} ValuesKeepNullFrequency(f: Option<Frequency>, ss: seq<Setting>, table: string, col: string)
    requires OnlyValues(ss)
    ensures
      var after := Effect(f, ss, table, col);
      if f.Some? then after.Some? && after.value.nullFreq == f.value.nullFreq
      else after.Some? ==> after.value.nullFreq == 0.0
    decreases |ss|
  {
    if ss != [] {
      ValuesKeepNullFrequency(if About(ss[0], table, col) then Some(Changed(f, ss[0])) else f, ss[1..], table, col);
    }
  }

  /** A column for which only values were asked is never NULL, whatever the
      default frequency that nullable columns without any entry have. */
  lemma ValuesWithoutNullFrequency(ss: seq<Setting>, table: string, col: string, defaultFreq: real, draw: real)
    requires OnlyValues(ss)
    ensures
      var t := ApplyAll(map[], ss);
      if Entry(t, table, col).Some? then !Null(t[table], col, true, defaultFreq, draw)
      else
        Null(if table in t then t[table] else map[], col, true, defaultFreq, draw)
        <==> 0.0 < defaultFreq && draw < defaultFreq
  {
    EntryAfterAll(map[], ss, table, col);
    ValuesKeepNullFrequency(None, ss, table, col);
  }

  // What is asked of a column, value by value.

  function Zipped(values: seq<string>, freqs: seq<real>): (pairs: seq<(string, real)>)
    requires |values| == |freqs|
    ensures |pairs| == |values| && forall i | 0 <= i < |pairs| :: pairs[i] == (values[i], freqs[i])
  {
    seq(|values|, i requires 0 <= i < |values| => (values[i], freqs[i]))
  }

  ghost predicate Fitting(f: Option<Frequency>) {
    f.Some? ==> f.value.Valid()
  }

  /** The values of an entry with their frequencies. */
  ghost function PairsOf(f: Option<Frequency>): seq<(string, real)>
    requires Fitting(f)
  {
    if f.Some? then Zipped(f.value.indexValues, f.value.indexFrequencies) else []
  }

  predicate AllPaired(ss: seq<Setting>) {
    forall s <- ss :: s.AddValues? ==> |s.values| == |s.freqs|
  }

  /** The values that the settings ask of a column, in order. */
  function Asked(ss: seq<Setting>, table: string, col: string): seq<(string, real)>
    requires AllPaired(ss)
    decreases |ss|
  {
    if ss == [] then []
    else
      assert ss[0] in ss && forall s <- ss[1..] :: s in ss;
      (if ss[0].AddValues? && ss[0].table == table && ss[0].col == col then Zipped(ss[0].values, ss[0].freqs) else [])
      + Asked(ss[1..], table, col)
  }

  /** Values go behind those a column has, each with its own frequency; its NULL
      frequency stays, or is zero in a new entry; no other entry changes. */
  lemma ValuesAdded(t: Tables, table: string, col: string, values: seq<string>, freqs: seq<real>)
    requires |values| == |freqs| && Fitting(Entry(t, table, col))
    ensures
      var before, more := Entry(t, table, col), Apply(t, AddValues(table, col, values, freqs));
      var after := Entry(more, table, col);
      && Fitting(after) && after.Some? && PairsOf(after) == PairsOf(before) + Zipped(values, freqs)
      && after.value.nullFreq == (if before.Some? then before.value.nullFreq else 0.0)
      && forall table2, col2 | table2 != table || col2 != col :: Entry(more, table2, col2) == Entry(t, table2, col2)
  {
  }

  /** A NULL frequency is drawn with from then on, and only in columns that can be
      NULL; it takes the column's values away, and no other entry changes. */
  lemma NullAsked(t: Tables, table: string, col: string, freq: real, defaultFreq: real, draw: real)
    ensures
      var more := Apply(t, SetNull(table, col, freq));
      && table in more && Entry(more, table, col) == Some(Frequency(freq, [], []))
      && (Null(more[table], col, true, defaultFreq, draw) <==> 0.0 < freq && draw < freq)
      && !Null(more[table], col, false, defaultFreq, draw)
      && forall table2, col2 | table2 != table || col2 != col :: Entry(more, table2, col2) == Entry(t, table2, col2)
  {
  }

  predicate NoNullAbout(ss: seq<Setting>, table: string, col: string) {
    forall s <- ss :: s.SetNull? ==> s.table != table || s.col != col
  }

  lemma {:induction false} PairsOfEffect(f: Option<Frequency>, ss: seq<Setting>, table: string, col: string)
    requires Fitting(f) && AllPaired(ss) && NoNullAbout(ss, table, col)
    ensures
      var after := Effect(f, ss, table, col);
      && Fitting(after) && PairsOf(after) == PairsOf(f) + Asked(ss, table, col)
      && (after.None? <==> f.None? && forall s <- ss :: s.table != table || s.col != col)
      && (after.Some? ==> after.value.nullFreq == if f.Some? then f.value.nullFreq else 0.0)
    decreases |ss|
  {
    if ss == [] {
      assert PairsOf(f) + [] == PairsOf(f);
    } else {
      assert ss[0] in ss && ss == [ss[0]] + ss[1..];
      var next := if About(ss[0], table, col) then Some(Changed(f, ss[0])) else f;
      PairsOfEffect(next, ss[1..], table, col);
      if About(ss[0], table, col) {
        var t: Tables := if f.Some? then map[table := map[col := f.value]] else map[];
        ValuesAdded(t, table, col, ss[0].values, ss[0].freqs);
        Regroup(PairsOf(f), Zipped(ss[0].values, ss[0].freqs), Asked(ss[1..], table, col));
      } else {
        assert [] + Asked(ss[1..], table, col) == Asked(ss[1..], table, col);
      }
    }
  }

  /** Without a NULL frequency for the column, its values are those it had and those
      asked for since, in order; an entry that only values make has NULL frequency zero. */
  lemma ValuesAskedFor(t: Tables, ss: seq<Setting>, table: string, col: string)
    requires Fitting(Entry(t, table, col)) && AllPaired(ss) && NoNullAbout(ss, table, col)
    ensures
      var before, after := Entry(t, table, col), Entry(ApplyAll(t, ss), table, col);
      && Fitting(after) && PairsOf(after) == PairsOf(before) + Asked(ss, table, col)
      && (after.None? <==> before.None? && forall s <- ss :: s.table != table || s.col != col)
      && (after.Some? ==> after.value.nullFreq == if before.Some? then before.value.nullFreq else 0.0)
  {
    EntryAfterAll(t, ss, table, col);
    PairsOfEffect(Entry(t, table, col), ss, table, col);
  }

  /** The last NULL frequency asked for a column is the one drawn with, and its values
      are those asked for after it, in order. */
  lemma AskedSinceLastNull(t: Tables, before: seq<Setting>, table: string, col: string, freq: real, after: seq<Setting>,
                           defaultFreq: real, draw: real)
    requires AllPaired(after) && NoNullAbout(after, table, col)
    ensures
      var result := ApplyAll(t, before + [SetNull(table, col, freq)] + after);
      && Fitting(Entry(result, table, col)) && PairsOf(Entry(result, table, col)) == Asked(after, table, col)
      && table in result
      && (Null(result[table], col, true, defaultFreq, draw) <==> 0.0 < freq && draw < freq)
      && !Null(result[table], col, false, defaultFreq, draw)
  {
    NullForgetsValues(t, before, table, col, freq, after);
    PairsOfEffect(Some(Frequency(freq, [], [])), after, table, col);
    NoneBefore(Asked(after, table, col));
  }

  // What a query asks of a column.

  /** A name is read as `table.col` exactly if that is how it is written. */
  lemma TableColIff(text: string, table: string, col: string)
    ensures TableCol(text) == Some((table, col)) <==> '.' !in table && '.' !in col && text == table + "." + col
  {
    JoinSplit(text, '.');
    var parts := Split(text, '.');
    if |parts| == 2 {
      assert parts == [parts[0], parts[1]] && parts[0] in parts && parts[1] in parts;
      assert Join([parts[1]], '.') == parts[1] && Join(parts, '.') == parts[0] + "." + parts[1];
    }
    if '.' !in table && '.' !in col {
      SplitFirst(table, col, '.');
      SplitFirst(col, "", '.');
    }
  }

  /** The values that the query compares the column of that name with, in order. */
  function Compared(params: seq<(string, seq<string>)>, name: string): seq<string> {
    if params == [] then []
    else (if params[0].0 == name then params[0].1 else []) + Compared(params[1..], name)
  }

  /** Each of the values with the same frequency. */
  function Evenly(values: seq<string>, freq: real): (pairs: seq<(string, real)>)
    ensures |pairs| == |values| && forall i | 0 <= i < |pairs| :: pairs[i] == (values[i], freq)
  {
    seq(|values|, i requires 0 <= i < |values| => (values[i], freq))
  }

  lemma {:induction false} QueryAsksOnlyValues(params: seq<(string, seq<string>)>, freq: real)
    ensures OnlyValues(QuerySettings(params, freq)) && AllPaired(QuerySettings(params, freq))
  {
    if params != [] {
      QueryAsksOnlyValues(params[1..], freq);
    }
  }

  lemma OneAsked(s: Setting, ss: seq<Setting>, table: string, col: string)
    requires AllPaired([s] + ss) && s.AddValues?
    ensures AllPaired(ss) && |s.values| == |s.freqs|
    ensures Asked([s] + ss, table, col)
         == (if About(s, table, col) then Zipped(s.values, s.freqs) else []) + Asked(ss, table, col)
  {
    assert s in [s] + ss && forall x <- ss :: x in [s] + ss;
    assert ([s] + ss)[1..] == ss;
  }

  lemma EvenlyBoth(a: seq<string>, b: seq<string>, freq: real)
    ensures Evenly(a + b, freq) == Evenly(a, freq) + Evenly(b, freq)
    ensures Zipped(a, seq(|a|, _ => freq)) == Evenly(a, freq)
  {
  }

  lemma {:induction false} QueryAsks(params: seq<(string, seq<string>)>, freq: real, table: string, col: string)
    requires '.' !in table && '.' !in col && AllPaired(QuerySettings(params, freq))
    ensures Asked(QuerySettings(params, freq), table, col) == Evenly(Compared(params, table + "." + col), freq)
  {
    if params != [] {
      var s, rest := QuerySetting(params[0], freq), QuerySettings(params[1..], freq);
      var more := Compared(params[1..], table + "." + col);
      TableColIff(params[0].0, table, col);
      QueryAsksOnlyValues(params[1..], freq);
      QueryAsks(params[1..], freq, table, col);
      EvenlyBoth(params[0].1, more, freq);
      NoneBefore(more);
      NoneBefore(rest);
      NoneBefore(Asked(rest, table, col));
      if s.Some? {
        OneAsked(s.value, rest, table, col);
      }
    }
  }

  lemma {:induction false} QueryNames(params: seq<(string, seq<string>)>, freq: real, table: string, col: string)
    requires '.' !in table && '.' !in col
    ensures (forall s <- QuerySettings(params, freq) :: s.table != table || s.col != col)
       <==> forall p <- params :: p.0 != table + "." + col
  {
    if params != [] {
      var s := QuerySetting(params[0], freq);
      TableColIff(params[0].0, table, col);
      QueryNames(params[1..], freq, table, col);
      assert params == [params[0]] + params[1..];
      assert s.Some? ==> s.value in QuerySettings(params, freq);
      assert forall x <- QuerySettings(params[1..], freq) :: x in QuerySettings(params, freq);
    }
  }

  /** After merging, a column has the values it had and those the query compares it
      with, each with the default frequency; its NULL frequency stays, and is zero if only the
      query names the column. */
  lemma QueryValues(t: Tables, params: seq<(string, seq<string>)>, freq: real, table: string, col: string)
    requires '.' !in table && '.' !in col && Fitting(Entry(t, table, col))
    ensures
      var name := table + "." + col;
      var before, after := Entry(t, table, col), Entry(ApplyAll(t, QuerySettings(params, freq)), table, col);
      && Fitting(after) && PairsOf(after) == PairsOf(before) + Evenly(Compared(params, name), freq)
      && (after.None? <==> before.None? && forall p <- params :: p.0 != name)
      && (after.Some? ==> after.value.nullFreq == if before.Some? then before.value.nullFreq else 0.0)
  {
    QueryAsksOnlyValues(params, freq);
    QueryAsks(params, freq, table, col);
    QueryNames(params, freq, table, col);
    ValuesAskedFor(t, QuerySettings(params, freq), table, col);
  }
}
