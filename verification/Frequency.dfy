/** Requested frequencies (frequency/frequency.go InjectIndexValue, Null) and the
    choice between an injected value, NULL and a generated one
    (generate/getters.go). Draws of rand.Float64 are reals of [0, 1); what a
    sequence of independent draws decides has the volume of a box as probability. */
module Frequency {
  import opened Text

  // One draw.

  /** `draw < freq / left` as floating point has it: a positive number divided by
      zero is an infinity, which every draw is below. */
  predicate Below(draw: real, freq: real, left: real) {
    if left == 0.0 then freq > 0.0 else draw < freq / left
  }

  function Max(a: real, b: real): real {
    if a <= b then b else a
  }

  function Min(a: real, b: real): real {
    if a <= b then a else b
  }

  /** The share of [0, 1) that is below. */
  function Chance(freq: real, left: real): real {
    if left == 0.0 then if freq > 0.0 then 1.0 else 0.0 else Max(0.0, Min(1.0, freq / left))
  }

  predicate UnitDraw(d: real) {
    0.0 <= d < 1.0
  }

  lemma BelowIsAnInterval(draw: real, freq: real, left: real)
    requires UnitDraw(draw)
    ensures Below(draw, freq, left) <==> draw < Chance(freq, left)
  {
  }

  // The conditional draws.

  /** One frequency after the other, each against what the earlier ones left. */
  function Pick(freqs: seq<real>, left: real, draws: seq<real>): Option<nat>
    requires |draws| == |freqs|
    decreases |freqs|
  {
    if freqs == [] then None
    else if Below(draws[0], freqs[0], left) then Some(0)
    else
      var later := Pick(freqs[1..], left - freqs[0], draws[1..]);
      if later.None? then None else Some(later.value + 1)
  }

  function Prefix(freqs: seq<real>, i: nat): real
    requires i <= |freqs|
    decreases i
  {
    if i == 0 then 0.0 else freqs[0] + Prefix(freqs[1..], i - 1)
  }

  function Shifted(r: Option<nat>, i: nat): Option<nat> {
    if r.None? then None else Some(r.value + i)
  }

  /** The loop draws a number per frequency until one is hit. */
  method InjectIndexValue(freqs: seq<real>, values: seq<string>, draws: seq<real>) returns (r: Option<string>)
    requires |values| == |freqs| == |draws|
    ensures r == var i := Pick(freqs, 1.0, draws); if i.Some? && i.value < |values| then Some(values[i.value]) else None
    ensures Pick(freqs, 1.0, draws).Some? ==> Pick(freqs, 1.0, draws).value < |freqs|
  {
    var totalFreq := 1.0;
    PickInRange(freqs, 1.0, draws);
    for i := 0 to |freqs|
      invariant Pick(freqs, 1.0, draws) == Shifted(Pick(freqs[i..], totalFreq, draws[i..]), i)
    {
      assert freqs[i..][1..] == freqs[i + 1..] && draws[i..][1..] == draws[i + 1..];
      if Below(draws[i], freqs[i], totalFreq) {
        return Some(values[i]);
      }
      totalFreq := totalFreq - freqs[i];
    }
    r := None;
  }

  lemma {:induction false} PickInRange(freqs: seq<real>, left: real, draws: seq<real>)
    requires |draws| == |freqs|
    ensures Pick(freqs, left, draws).Some? ==> Pick(freqs, left, draws).value < |freqs|
    decreases |freqs|
  {
    if freqs != [] {
      PickInRange(freqs[1..], left - freqs[0], draws[1..]);
    }
  }

  // Events as boxes.

  /** All draws between `lo` and `hi`. */
  datatype Interval = Interval(lo: real, hi: real) {
    function Length(): real {
      hi - lo
    }
  }

  const ANY := Interval(0.0, 1.0)

  predicate InBox(draws: seq<real>, box: seq<Interval>)
    requires |draws| == |box|
  {
    forall k | 0 <= k < |box| :: box[k].lo <= draws[k] < box[k].hi
  }

  function Times(a: real, b: real): real {
    a * b
  }

  /** `mass` times the length of every side. */
  function Scaled(mass: real, box: seq<Interval>): real
    decreases |box|
  {
    if box == [] then mass else Scaled(Times(mass, box[0].Length()), box[1..])
  }

  function Volume(box: seq<Interval>): real {
    Scaled(1.0, box)
  }

  function Anything(n: nat): (box: seq<Interval>)
    ensures |box| == n && forall k | 0 <= k < n :: box[k] == ANY
  {
    if n == 0 then [] else [ANY] + Anything(n - 1)
  }

  /** The chance of each draw to hit, if it is made. */
  function Chances(freqs: seq<real>, left: real): (cs: seq<real>)
    ensures |cs| == |freqs|
    decreases |freqs|
  {
    if freqs == [] then [] else [Chance(freqs[0], left)] + Chances(freqs[1..], left - freqs[0])
  }

  function Earlier(i: Option<nat>): Option<nat>
    requires i != Some(0)
  {
    if i.None? then None else Some(i.value - 1)
  }

  /** The draws for which the `i`-th value is picked; with `None`, no value. */
  function PickBox(cs: seq<real>, i: Option<nat>): (box: seq<Interval>)
    requires i.Some? ==> i.value < |cs|
    ensures |box| == |cs|
    decreases |cs|
  {
    if cs == [] then []
    else if i == Some(0) then [Interval(0.0, cs[0])] + Anything(|cs| - 1)
    else [Interval(cs[0], 1.0)] + PickBox(cs[1..], Earlier(i))
  }

  lemma SideBySide(draws: seq<real>, box: seq<Interval>)
    requires |draws| == |box| > 0
    ensures InBox(draws, box) <==> box[0].lo <= draws[0] < box[0].hi && InBox(draws[1..], box[1..])
  {
    assert forall k | 1 <= k < |box| :: box[k] == box[1..][k - 1] && draws[k] == draws[1..][k - 1];
  }

  lemma {:induction false} PickIffInBox(freqs: seq<real>, left: real, draws: seq<real>, i: Option<nat>)
    requires |draws| == |freqs| && (i.Some? ==> i.value < |freqs|)
    requires forall k | 0 <= k < |draws| :: UnitDraw(draws[k])
    ensures Pick(freqs, left, draws) == i <==> InBox(draws, PickBox(Chances(freqs, left), i))
    decreases |freqs|
  {
    if freqs != [] {
      var box := PickBox(Chances(freqs, left), i);
      BelowIsAnInterval(draws[0], freqs[0], left);
      assert Chances(freqs, left)[1..] == Chances(freqs[1..], left - freqs[0]);
      SideBySide(draws, box);
      if i != Some(0) {
        PickIffInBox(freqs[1..], left - freqs[0], draws[1..], Earlier(i));
      }
    }
  }

  lemma {:induction false} AnythingKeepsMass(mass: real, n: nat)
    ensures Scaled(mass, Anything(n)) == mass
  {
    if n > 0 {
      AnythingKeepsMass(mass, n - 1);
    }
  }

  lemma {:induction false} NoMassNoVolume(box: seq<Interval>)
    ensures Scaled(0.0, box) == 0.0
    decreases |box|
  {
    if box != [] {
      NoMassNoVolume(box[1..]);
    }
  }

  // The probabilities.

  predicate NonNegative(freqs: seq<real>) {
    forall k | 0 <= k < |freqs| :: freqs[k] >= 0.0
  }

  lemma {:induction false} PrefixGrows(freqs: seq<real>, i: nat, j: nat)
    requires NonNegative(freqs) && i <= j <= |freqs|
    ensures 0.0 <= Prefix(freqs, i) <= Prefix(freqs, j)
    ensures i < j ==> Prefix(freqs, i) + freqs[i] <= Prefix(freqs, j)
    decreases j
  {
    if i > 0 {
      PrefixGrows(freqs[1..], i - 1, j - 1);
    } else if j > 0 {
      PrefixGrows(freqs[1..], 0, j - 1);
    }
  }

  lemma QuotientTimes(freq: real, left: real)
    requires left > 0.0
    ensures freq / left * left == freq
    ensures freq >= left ==> freq / left >= 1.0
    ensures 0.0 <= freq < left ==> 0.0 <= freq / left < 1.0
  {
    var q := freq / left;
    assert q * left == freq;
    assert (q - 1.0) * left == freq - left;
    if freq >= left && q < 1.0 {
      Signs(1.0 - q, left);
    }
    if freq < left && q >= 1.0 {
      NoNegative(q - 1.0, left);
    }
    if 0.0 <= freq && q < 0.0 {
      Signs(-q, left);
    }
  }

  lemma Signs(a: real, b: real)
    requires a > 0.0 && b > 0.0
    ensures a * b > 0.0
  {
  }

  lemma NoNegative(a: real, b: real)
    requires a >= 0.0 && b > 0.0
    ensures a * b >= 0.0
  {
  }

  lemma ChanceTimesLeft(freq: real, left: real)
    requires left > 0.0 && freq >= 0.0
    ensures Chance(freq, left) * left == Min(freq, left)
    ensures freq >= left ==> Chance(freq, left) == 1.0
  {
    QuotientTimes(freq, left);
  }

  /** Each chance, of what is left when its turn comes, is the frequency asked for. */
  ghost predicate Conditional(cs: seq<real>, freqs: seq<real>, left: real)
    decreases |cs|
  {
    && |cs| == |freqs|
    && (cs != [] ==>
          && Times(left, cs[0] - 0.0) == Min(freqs[0], left)
          && Times(left, 1.0 - cs[0]) == left - Min(freqs[0], left)
          && (freqs[0] < left ==> Conditional(cs[1..], freqs[1..], left - freqs[0])))
  }

  lemma {:induction false} ChancesAreConditional(freqs: seq<real>, left: real)
    requires NonNegative(freqs) && left > 0.0
    ensures Conditional(Chances(freqs, left), freqs, left)
    decreases |freqs|
  {
    if freqs != [] {
      var c := Chance(freqs[0], left);
      ChanceTimesLeft(freqs[0], left);
      MissLeaves(c, left, Min(freqs[0], left));
      if freqs[0] < left {
        ChancesAreConditional(freqs[1..], left - freqs[0]);
        assert Chances(freqs, left)[1..] == Chances(freqs[1..], left - freqs[0]);
      }
    }
  }

  lemma MissLeaves(c: real, left: real, hit: real)
    requires c * left == hit
    ensures Times(left, 1.0 - c) == left - hit && Times(left, c - 0.0) == hit
  {
  }

  lemma FirstSide(mass: real, box: seq<Interval>, length: real, rest: seq<Interval>)
    requires box != [] && box[0].Length() == length && box[1..] == rest
    ensures Scaled(mass, box) == Scaled(Times(mass, length), rest)
  {
  }

  /** What value `i` (or no value) gets, by the frequencies. */
  function Due(freqs: seq<real>, left: real, i: Option<nat>): real
    requires i.Some? ==> i.value < |freqs|
  {
    Max(0.0, if i.None? then left - Prefix(freqs, |freqs|) else Min(freqs[i.value], left - Prefix(freqs, i.value)))
  }

  /** What one draw leaves is what the next divides by: the factors telescope. */
  lemma {:induction false} Telescope(cs: seq<real>, freqs: seq<real>, left: real, i: Option<nat>)
    requires Conditional(cs, freqs, left) && NonNegative(freqs) && left > 0.0 && (i.Some? ==> i.value < |cs|)
    ensures Scaled(left, PickBox(cs, i)) == Due(freqs, left, i)
    decreases |cs|
  {
    if cs != [] {
      if i == Some(0) {
        FirstSide(left, PickBox(cs, i), cs[0] - 0.0, Anything(|cs| - 1));
        AnythingKeepsMass(Times(left, cs[0] - 0.0), |cs| - 1);
      } else {
        FirstSide(left, PickBox(cs, i), 1.0 - cs[0], PickBox(cs[1..], Earlier(i)));
        if freqs[0] < left {
          Telescope(cs[1..], freqs[1..], left - freqs[0], Earlier(i));
        } else {
          NoMassNoVolume(PickBox(cs[1..], Earlier(i)));
          PrefixGrows(freqs, 1, if i.None? then |freqs| else i.value);
        }
      }
    }
  }

  lemma VolumeIsScaled(box: seq<Interval>, due: real)
    requires Scaled(1.0, box) == due
    ensures Volume(box) == due
  {
  }

  lemma {:induction false} ConditionalShare(cs: seq<real>, freqs: seq<real>, i: Option<nat>)
    requires Conditional(cs, freqs, 1.0) && NonNegative(freqs) && (i.Some? ==> i.value < |cs|)
    ensures Volume(PickBox(cs, i)) == Due(freqs, 1.0, i)
  {
    Telescope(cs, freqs, 1.0, i);
    VolumeIsScaled(PickBox(cs, i), Due(freqs, 1.0, i));
  }

  /** The probabilities with which the values are injected. */
  function InjectedShares(cs: seq<real>): (shares: seq<real>)
    ensures |shares| == |cs|
  {
    seq(|cs|, i requires 0 <= i < |cs| => Volume(PickBox(cs, Some(i))))
  }

  function AllDue(freqs: seq<real>): (due: seq<real>)
    ensures |due| == |freqs| && forall i | 0 <= i < |freqs| :: due[i] == Due(freqs, 1.0, Some(i))
  {
    seq(|freqs|, i requires 0 <= i < |freqs| => Due(freqs, 1.0, Some(i)))
  }

  lemma {:induction false} SharesAreDue(cs: seq<real>, freqs: seq<real>)
    requires Conditional(cs, freqs, 1.0) && NonNegative(freqs)
    ensures InjectedShares(cs) == AllDue(freqs)
  {
    var shares, due := InjectedShares(cs), AllDue(freqs);
    forall i | 0 <= i < |cs|
      ensures shares[i] == due[i]
    {
      ConditionalShare(cs, freqs, Some(i));
    }
  }

  /** The same with the probability that nothing is injected, at the end. */
  function AllShares(cs: seq<real>): (shares: seq<real>)
    ensures |shares| == |cs| + 1
  {
    InjectedShares(cs) + [Volume(PickBox(cs, None))]
  }

  /** For any non-negative frequencies, with the draws of the program: a value gets
      what was asked for, as far as the values before it left room; and nothing is
      injected with what is left. */
  lemma {:induction false} ShareOfEachValue(freqs: seq<real>)
    requires NonNegative(freqs)
    ensures AllShares(Chances(freqs, 1.0)) == AllDue(freqs) + [Due(freqs, 1.0, None)]
  {
    var cs := Chances(freqs, 1.0);
    ChancesAreConditional(freqs, 1.0);
    SharesAreDue(cs, freqs);
    ConditionalShare(cs, freqs, None);
  }

  lemma {:induction false} DueExactIff(freqs: seq<real>)
    requires NonNegative(freqs)
    ensures AllDue(freqs) == freqs <==> Prefix(freqs, |freqs|) <= 1.0
  {
    if Prefix(freqs, |freqs|) <= 1.0 {
      forall i | 0 <= i < |freqs|
        ensures AllDue(freqs)[i] == freqs[i]
      {
        PrefixGrows(freqs, i, |freqs|);
      }
    } else {
      var i := Overflow(freqs, 1.0);
      assert AllDue(freqs)[i] != freqs[i];
    }
  }

  /** Every value gets exactly its frequency iff the frequencies add up to at most one. */
  lemma {:induction false} ExactIffSumAtMostOne(freqs: seq<real>)
    requires NonNegative(freqs)
    ensures InjectedShares(Chances(freqs, 1.0)) == freqs <==> Prefix(freqs, |freqs|) <= 1.0
  {
    ChancesAreConditional(freqs, 1.0);
    SharesAreDue(Chances(freqs, 1.0), freqs);
    DueExactIff(freqs);
  }

  lemma {:induction false} Overflow(freqs: seq<real>, room: real) returns (i: nat)
    requires NonNegative(freqs) && 0.0 <= room < Prefix(freqs, |freqs|)
    ensures i < |freqs| && freqs[i] > 0.0 && Prefix(freqs, i) + freqs[i] > room
    decreases |freqs|
  {
    if freqs[0] > room {
      i := 0;
    } else {
      var k := Overflow(freqs[1..], room - freqs[0]);
      i := k + 1;
    }
  }

  // A cell: a NULL draw first, which an injected value overrides.

  /** What is wanted of a column. */
  datatype Frequency = Frequency(nullFreq: real, indexValues: seq<string>, indexFrequencies: seq<real>) {
    ghost predicate Valid() {
      |indexValues| == |indexFrequencies|
    }
  }

  type ColumnFrequency = map<string, Frequency>

  /** Columns nothing is wanted of get the frequency of the `--null-freq` parameter. */
  function NullFrequency(c: ColumnFrequency, col: string, defaultFreq: real): real {
    if col in c then c[col].nullFreq else defaultFreq
  }

  predicate Null(c: ColumnFrequency, col: string, isNullable: bool, defaultFreq: real, draw: real) {
    isNullable && NullFrequency(c, col, defaultFreq) > 0.0 && draw < NullFrequency(c, col, defaultFreq)
  }

  function IndexFrequencies(c: ColumnFrequency, col: string): seq<real> {
    if col in c then c[col].indexFrequencies else []
  }

  datatype Content = Empty | NullContent | Injected(value: string) | Random(text: string)

  datatype Event = ValueEvent(i: nat) | NullEvent | RandomEvent

  /** What the draws make of the cell. */
  function Outcome(c: ColumnFrequency, col: string, isNullable: bool, defaultFreq: real, nullDraw: real,
                   draws: seq<real>): Event
    requires |draws| == |IndexFrequencies(c, col)|
  {
    var i := Pick(IndexFrequencies(c, col), 1.0, draws);
    if i.Some? then ValueEvent(i.value)
    else if Null(c, col, isNullable, defaultFreq, nullDraw) then NullEvent
    else RandomEvent
  }

  class GetterWrapper {
    var elem: Content

    constructor (column: string, isNullable: bool, freq: ColumnFrequency, defaultFreq: real, nullDraw: real,
                 draws: seq<real>)
      requires column in freq ==> freq[column].Valid()
      requires |draws| == |IndexFrequencies(freq, column)|
      ensures match Outcome(freq, column, isNullable, defaultFreq, nullDraw, draws)
        case ValueEvent(i) => i < |IndexFrequencies(freq, column)| && elem == Injected(freq[column].indexValues[i])
        case NullEvent => elem == NullContent
        case RandomEvent => elem == Empty
      ensures
        var f := if column in freq then freq[column] else Frequency(defaultFreq, [], []);
        var i := Pick(f.indexFrequencies, 1.0, draws);
        && (i.Some? ==> i.value < |f.indexValues|)
        && elem == if i.Some? then Injected(f.indexValues[i.value])
                   else if isNullable && 0.0 < f.nullFreq && nullDraw < f.nullFreq then NullContent
                   else Empty
    {
      elem := Empty;
      new;
      if Null(freq, column, isNullable, defaultFreq, nullDraw) {
        elem := NullContent;
      }
      if column in freq {
        var value := InjectIndexValue(freq[column].indexFrequencies, freq[column].indexValues, draws);
        if value.Some? {
          elem := Injected(value.value);
        }
      }
    }

    /** A generated value only goes where nothing is yet. */
    method Assign(text: string)
      modifies this
      ensures elem == if old(elem) == Empty then Random(text) else old(elem)
    {
      if elem != Empty {
        return;
      }
      elem := Random(text);
    }
  }

  /** The probability of NULL, were no value injected. */
  function NullChance(c: ColumnFrequency, col: string, isNullable: bool, defaultFreq: real): real {
    if isNullable then Max(0.0, Min(1.0, NullFrequency(c, col, defaultFreq))) else 0.0
  }

  /** A nullable column is NULL for the draws below the frequency asked for it, or
      below the default if nothing is asked; a column that is not nullable never. */
  lemma NullIsAnInterval(c: ColumnFrequency, col: string, isNullable: bool, defaultFreq: real, draw: real)
    requires UnitDraw(draw)
    ensures Null(c, col, isNullable, defaultFreq, draw) <==> draw < NullChance(c, col, isNullable, defaultFreq)
    ensures Null(c, col, true, defaultFreq, draw) <==> draw < (if col in c then c[col].nullFreq else defaultFreq)
    ensures !Null(c, col, false, defaultFreq, draw)
  {
  }

  /** The NULL draws and the value draws, independent of each other, that lead to an event. */
  function NullSide(event: Event, p: real): Interval {
    match event
    case ValueEvent(_) => ANY
    case NullEvent => Interval(0.0, p)
    case RandomEvent => Interval(p, 1.0)
  }

  function ValueOf(event: Event): Option<nat> {
    if event.ValueEvent? then Some(event.i) else None
  }

  function Probability(event: Event, p: real, cs: seq<real>): real
    requires event.ValueEvent? ==> event.i < |cs|
  {
    Times(NullSide(event, p).Length(), Volume(PickBox(cs, ValueOf(event))))
  }

  /** An event happens exactly for the draws of its interval and its box. */
  lemma OutcomeIffInBox(c: ColumnFrequency, col: string, isNullable: bool, defaultFreq: real,
                        nullDraw: real, draws: seq<real>, event: Event)
    requires |draws| == |IndexFrequencies(c, col)| && UnitDraw(nullDraw)
    requires forall k | 0 <= k < |draws| :: UnitDraw(draws[k])
    requires event.ValueEvent? ==> event.i < |draws|
    ensures
      var side := NullSide(event, NullChance(c, col, isNullable, defaultFreq));
      Outcome(c, col, isNullable, defaultFreq, nullDraw, draws) == event
      <==>
      && side.lo <= nullDraw < side.hi
      && InBox(draws, PickBox(Chances(IndexFrequencies(c, col), 1.0), ValueOf(event)))
  {
    NullIsAnInterval(c, col, isNullable, defaultFreq, nullDraw);
    PickIffInBox(IndexFrequencies(c, col), 1.0, draws, ValueOf(event));
  }

  lemma TimesOne(x: real)
    ensures Times(1.0, x) == x
  {
  }

  lemma OtherShares(cs: seq<real>, freqs: seq<real>, p: real, rest: real)
    requires Conditional(cs, freqs, 1.0) && NonNegative(freqs) && rest == 1.0 - Prefix(freqs, |freqs|) >= 0.0
    ensures Probability(NullEvent, p, cs) == Times(p, rest)
    ensures Probability(RandomEvent, p, cs) == Times(1.0 - p, rest)
    ensures Probability(NullEvent, p, cs) + Probability(RandomEvent, p, cs) == rest
  {
    ConditionalShare(cs, freqs, None);
    RestShares(p, Volume(PickBox(cs, None)), rest);
  }

  lemma {:induction false} ConditionalValueShare(cs: seq<real>, freqs: seq<real>, p: real, i: nat)
    requires Conditional(cs, freqs, 1.0) && NonNegative(freqs) && Prefix(freqs, |freqs|) <= 1.0 && i < |freqs|
    ensures Probability(ValueEvent(i), p, cs) == freqs[i]
  {
    ConditionalShare(cs, freqs, Some(i));
    PrefixGrows(freqs, i, |freqs|);
    TimesOne(Volume(PickBox(cs, Some(i))));
  }

  lemma RestShares(p: real, volume: real, rest: real)
    requires volume == rest
    ensures Times(Interval(0.0, p).Length(), volume) == Times(p, rest)
    ensures Times(Interval(p, 1.0).Length(), volume) == Times(1.0 - p, rest)
    ensures Times(p, rest) + Times(1.0 - p, rest) == rest
  {
  }

  /** The probabilities of a cell's outcomes: the values, NULL and a generated value. */
  function OutcomeShares(cs: seq<real>, p: real): (shares: seq<real>)
    ensures |shares| == |cs| + 2
  {
    seq(|cs|, i requires 0 <= i < |cs| => Probability(ValueEvent(i), p, cs))
    + [Probability(NullEvent, p, cs), Probability(RandomEvent, p, cs)]
  }

  ghost predicate ValuesGet(cs: seq<real>, freqs: seq<real>, p: real) {
    |cs| == |freqs| && forall i | 0 <= i < |freqs| :: Probability(ValueEvent(i), p, cs) == freqs[i]
  }

  lemma {:induction false} SharesListed(cs: seq<real>, freqs: seq<real>, p: real, a: real, b: real)
    requires ValuesGet(cs, freqs, p)
    requires Probability(NullEvent, p, cs) == a && Probability(RandomEvent, p, cs) == b
    ensures OutcomeShares(cs, p) == freqs + [a, b]
  {
  }

  lemma {:induction false} SharesOfConditional(cs: seq<real>, freqs: seq<real>, p: real, rest: real)
    requires Conditional(cs, freqs, 1.0) && NonNegative(freqs) && rest == 1.0 - Prefix(freqs, |freqs|) >= 0.0
    ensures OutcomeShares(cs, p) == freqs + [Times(p, rest), Times(1.0 - p, rest)]
  {
    forall i | 0 <= i < |freqs|
      ensures Probability(ValueEvent(i), p, cs) == freqs[i]
    {
      ConditionalValueShare(cs, freqs, p, i);
    }
    OtherShares(cs, freqs, p, rest);
    SharesListed(cs, freqs, p, Times(p, rest), Times(1.0 - p, rest));
  }

  lemma {:induction false} PrefixOfTwoMore(freqs: seq<real>, a: real, b: real)
    ensures Prefix(freqs + [a, b], |freqs| + 2) == Prefix(freqs, |freqs|) + a + b
  {
    if freqs == [] {
      assert Prefix([b], 1) == b + Prefix([], 0);
    } else {
      assert (freqs + [a, b])[1..] == freqs[1..] + [a, b];
      PrefixOfTwoMore(freqs[1..], a, b);
    }
  }

  lemma SharesAddUp(freqs: seq<real>, p: real, rest: real, shares: seq<real>)
    requires rest == 1.0 - Prefix(freqs, |freqs|) && shares == freqs + [Times(p, rest), Times(1.0 - p, rest)]
    ensures Prefix(shares, |freqs| + 2) == 1.0
  {
    PrefixOfTwoMore(freqs, Times(p, rest), Times(1.0 - p, rest));
    RestShares(p, rest, rest);
  }

  /** With the draws of the program a cell gets each value with exactly its frequency,
      NULL with `p` of what the values leave, and a generated value with the rest of it;
      everything adds up to one. */
  lemma {:induction false} CellShares(freqs: seq<real>, p: real, rest: real)
    requires NonNegative(freqs) && rest == 1.0 - Prefix(freqs, |freqs|) >= 0.0
    ensures
      var shares := OutcomeShares(Chances(freqs, 1.0), p);
      shares == freqs + [Times(p, rest), Times(1.0 - p, rest)] && Prefix(shares, |freqs| + 2) == 1.0
  {
    ChancesAreConditional(freqs, 1.0);
    SharesOfConditional(Chances(freqs, 1.0), freqs, p, rest);
    SharesAddUp(freqs, p, rest, OutcomeShares(Chances(freqs, 1.0), p));
  }

  lemma AskedChances(c: ColumnFrequency, col: string, defaultFreq: real)
    requires col in c && 0.0 <= c[col].nullFreq <= 1.0
    ensures IndexFrequencies(c, col) == c[col].indexFrequencies
    ensures NullChance(c, col, true, defaultFreq) == c[col].nullFreq && NullChance(c, col, false, defaultFreq) == 0.0
  {
  }

  /** So a nullable column gets what was asked for it: each value with its frequency,
      and NULL with the column's NULL frequency of what the values leave. */
  lemma {:induction false} ColumnShares(c: ColumnFrequency, col: string, defaultFreq: real, freqs: seq<real>, p: real,
                                        rest: real)
    requires col in c && c[col].nullFreq == p && 0.0 <= p <= 1.0
    requires c[col].indexFrequencies == freqs && NonNegative(freqs) && rest == 1.0 - Prefix(freqs, |freqs|) >= 0.0
    ensures OutcomeShares(Chances(IndexFrequencies(c, col), 1.0), NullChance(c, col, true, defaultFreq))
         == freqs + [Times(p, rest), Times(1.0 - p, rest)]
  {
    AskedChances(c, col, defaultFreq);
    CellShares(freqs, p, rest);
  }
}
