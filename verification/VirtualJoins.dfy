/** The `--add-fk` parameter (query/joins.go): a list of parent/child column
    lists written `parent.c1,c2=child.c3,c4;...`. */
module VirtualJoins {
  import opened Text

  datatype VirtualJoinPart = VirtualJoinPart(table: string, columns: seq<string>)

  /** `left` is the parent table, `right` the child that will carry the key. */
  datatype VirtualJoin = VirtualJoin(left: VirtualJoinPart, right: VirtualJoinPart)

  datatype DecodeError = Malformed | DifferentColumnCounts

  /** One `;`-separated element of the parameter. */
  function DecodeJoin(raw: string): Result<VirtualJoin, DecodeError> {
    var parts := Split(raw, '=');
    if |parts| != 2 then Err(Malformed) else
    var left, right := Split(parts[0], '.'), Split(parts[1], '.');
    if |left| != 2 || |right| != 2 then Err(Malformed) else
    var parentCols, childCols := Split(left[1], ','), Split(right[1], ',');
    if |parentCols| != |childCols| then Err(DifferentColumnCounts) else
    Ok(VirtualJoin(VirtualJoinPart(left[0], parentCols), VirtualJoinPart(right[0], childCols)))
  }

  function Prepend(done: seq<VirtualJoin>,
                   r: Result<seq<VirtualJoin>, DecodeError>): Result<seq<VirtualJoin>, DecodeError>
  {
    if r.Ok? then Ok(done + r.value) else r
  }

  lemma PrependTwice(done: seq<VirtualJoin>, j: VirtualJoin, r: Result<seq<VirtualJoin>, DecodeError>)
    ensures Prepend(done, Prepend([j], r)) == Prepend(done + [j], r)
  {
    if r.Ok? {
      assert done + ([j] + r.value) == (done + [j]) + r.value;
    }
  }

  /** Elements are decoded in order; the first bad one decides the error. */
  function DecodeAll(raws: seq<string>): Result<seq<VirtualJoin>, DecodeError> {
    if raws == [] then Ok([]) else
    match DecodeJoin(raws[0])
    case Err(e) => Err(e)
    case Ok(j) => Prepend([j], DecodeAll(raws[1..]))
  }

  method Decode(value: string) returns (r: Result<seq<VirtualJoin>, DecodeError>)
    ensures r == DecodeAll(Split(value, ';'))
  {
    var raws := Split(value, ';');
    var vfks: seq<VirtualJoin> := [];
    assert raws[0..] == raws;
    assert DecodeAll(raws).Ok? ==> [] + DecodeAll(raws).value == DecodeAll(raws).value;
    for i := 0 to |raws|
      invariant DecodeAll(raws) == Prepend(vfks, DecodeAll(raws[i..]))
    {
      var raw := raws[i];
      assert raws[i..][0] == raw;
      assert raws[i..][1..] == raws[i + 1..];
      var parts := Split(raw, '=');
      if |parts| != 2 {
        return Err(Malformed);
      }
      var left, right := Split(parts[0], '.'), Split(parts[1], '.');
      if |left| != 2 || |right| != 2 {
        return Err(Malformed);
      }
      var parentCols, childCols := Split(left[1], ','), Split(right[1], ',');
      if |parentCols| != |childCols| {
        return Err(DifferentColumnCounts);
      }
      var vfk := VirtualJoin(VirtualJoinPart(left[0], parentCols), VirtualJoinPart(right[0], childCols));
      PrependTwice(vfks, vfk, DecodeAll(raws[i + 1..]));
      vfks := vfks + [vfk];
    }
    assert vfks + [] == vfks;
    r := Ok(vfks);
  }

  // The written form, and which joins have one.

  function EncodePart(p: VirtualJoinPart): string
    requires |p.columns| >= 1
  {
    p.table + "." + Join(p.columns, ',')
  }

  function EncodeJoin(j: VirtualJoin): string
    requires |j.left.columns| >= 1 && |j.right.columns| >= 1
  {
    EncodePart(j.left) + "=" + EncodePart(j.right)
  }

  /** No name contains a separator that the grammar looks for at its place. */
  ghost predicate WritablePart(p: VirtualJoinPart) {
    && |p.columns| >= 1
    && '.' !in p.table && '=' !in p.table && ';' !in p.table
    && Free(p.columns, '.') && Free(p.columns, '=') && Free(p.columns, ';') && Free(p.columns, ',')
  }

  ghost predicate Writable(j: VirtualJoin) {
    WritablePart(j.left) && WritablePart(j.right) && |j.left.columns| == |j.right.columns|
  }

  ghost predicate AllWritable(js: seq<VirtualJoin>) {
    forall i | 0 <= i < |js| :: Writable(js[i])
  }

  predicate HaveColumns(js: seq<VirtualJoin>) {
    forall i | 0 <= i < |js| :: |js[i].left.columns| >= 1 && |js[i].right.columns| >= 1
  }

  function EncodeAll(js: seq<VirtualJoin>): (raws: seq<string>)
    requires HaveColumns(js)
    ensures |raws| == |js|
  {
    if js == [] then [] else [EncodeJoin(js[0])] + EncodeAll(js[1..])
  }

  function Encode(js: seq<VirtualJoin>): string
    requires js != [] && HaveColumns(js)
  {
    Join(EncodeAll(js), ';')
  }

  lemma PartRoundTrip(p: VirtualJoinPart)
    requires WritablePart(p)
    ensures Split(EncodePart(p), '.') == [p.table, Join(p.columns, ',')]
    ensures Split(Join(p.columns, ','), ',') == p.columns
    ensures '=' !in EncodePart(p) && ';' !in EncodePart(p)
  {
    var cols := Join(p.columns, ',');
    JoinFree(p.columns, ',', '.');
    JoinFree(p.columns, ',', '=');
    JoinFree(p.columns, ',', ';');
    SplitJoin(p.columns, ',');
    SplitJoin([p.table, cols], '.');
  }

  lemma PartReadBack(raw: string)
    requires |Split(raw, '.')| == 2 && '=' !in raw && ';' !in raw
    ensures
      var p := VirtualJoinPart(Split(raw, '.')[0], Split(Split(raw, '.')[1], ','));
      WritablePart(p) && EncodePart(p) == raw
  {
    var parts := Split(raw, '.');
    JoinSplit(raw, '.');
    SplitFree(raw, '.', '=');
    SplitFree(raw, '.', ';');
    JoinSplit(parts[1], ',');
    SplitFree(parts[1], ',', '.');
    SplitFree(parts[1], ',', '=');
    SplitFree(parts[1], ',', ';');
  }

  /** For one element: it decodes to a join exactly when it is that join's written form. */
  lemma JoinRoundTrip(raw: string, j: VirtualJoin)
    requires ';' !in raw
    ensures DecodeJoin(raw) == Ok(j) <==> Writable(j) && EncodeJoin(j) == raw
  {
    if Writable(j) && EncodeJoin(j) == raw {
      PartRoundTrip(j.left);
      PartRoundTrip(j.right);
      SplitJoin([EncodePart(j.left), EncodePart(j.right)], '=');
      assert Split(raw, '=') == [EncodePart(j.left), EncodePart(j.right)];
    }
    if DecodeJoin(raw) == Ok(j) {
      var parts := Split(raw, '=');
      JoinSplit(raw, '=');
      SplitFree(raw, '=', ';');
      PartReadBack(parts[0]);
      PartReadBack(parts[1]);
    }
  }

  lemma {:induction false} AllRoundTrip(raws: seq<string>, js: seq<VirtualJoin>)
    requires Free(raws, ';')
    ensures DecodeAll(raws) == Ok(js) <==> AllWritable(js) && EncodeAll(js) == raws
  {
    if raws != [] && js != [] {
      JoinRoundTrip(raws[0], js[0]);
      AllRoundTrip(raws[1..], js[1..]);
      assert AllWritable(js) <==> Writable(js[0]) && AllWritable(js[1..]) by {
        assert forall i | 1 <= i < |js| :: js[i] == js[1..][i - 1];
      }
      assert js == [js[0]] + js[1..] && raws == [raws[0]] + raws[1..];
      if DecodeAll(raws) == Ok(js) {
        assert DecodeJoin(raws[0]).value == js[0];
      }
      if AllWritable(js) && EncodeAll(js) == raws {
        assert EncodeAll(js)[0] == raws[0] && EncodeAll(js)[1..] == raws[1..];
      }
    }
  }

  lemma {:induction false} EncodedElementsAreSemicolonFree(js: seq<VirtualJoin>)
    requires AllWritable(js)
    ensures Free(EncodeAll(js), ';')
  {
    if js != [] {
      PartRoundTrip(js[0].left);
      PartRoundTrip(js[0].right);
      EncodedElementsAreSemicolonFree(js[1..]);
    }
  }

  /** The parameter decodes to `js` exactly when it is the written form of `js`:
      decoding is the inverse of writing, nothing else is accepted, and both
      sides of every accepted join have equally many columns. */
  lemma DecodeRoundTrip(value: string, js: seq<VirtualJoin>)
    ensures DecodeAll(Split(value, ';')) == Ok(js)
       <==> js != [] && AllWritable(js) && Encode(js) == value
  {
    var raws := Split(value, ';');
    JoinSplit(value, ';');
    AllRoundTrip(raws, js);
    if js != [] && AllWritable(js) && Encode(js) == value {
      EncodedElementsAreSemicolonFree(js);
      SplitJoin(EncodeAll(js), ';');
    }
  }
}
