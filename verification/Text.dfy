/** Strings as the program uses them: names compared without regard to case,
    and texts cut at a separator the way Go's strings.Split does. */
module Text {

  datatype Option<+T> = None | Some(value: T)

  datatype Result<+T, +E> = Ok(value: T) | Err(error: E)

  lemma TakeOneMore<T>(s: seq<T>, n: nat)
    requires n < |s|
    ensures s[..n + 1] == s[..n] + [s[n]]
  {
  }

  lemma TakeAll<T>(s: seq<T>)
    ensures s[..|s|] == s
  {
  }

  lemma Regroup<T>(a: seq<T>, b: seq<T>, c: seq<T>)
    ensures (a + b) + c == a + (b + c)
  {
  }

  /** ASCII lower-casing. */
  function LowerChar(c: char): char {
    if 'A' <= c <= 'Z' then c - 'A' + 'a' else c
  }

  function Lower(s: string): string {
    seq(|s|, i requires 0 <= i < |s| => LowerChar(s[i]))
  }

  predicate SameName(a: string, b: string) {
    Lower(a) == Lower(b)
  }

  /** One of the two characters is the capital of the other; 32 lies between them in ASCII. */
  predicate CapitalOf(upper: char, c: char) {
    65 <= upper as int <= 90 && c as int == upper as int + 32
  }

  lemma SameLetterIff(c: char, d: char)
    ensures LowerChar(c) == LowerChar(d) <==> c == d || CapitalOf(c, d) || CapitalOf(d, c)
  {
  }

  /** Two names are the same if they are equally long and agree, letter by letter,
      up to capitals. */
  lemma SameNameIff(a: string, b: string)
    ensures SameName(a, b) <==>
      |a| == |b| && forall i | 0 <= i < |a| :: a[i] == b[i] || CapitalOf(a[i], b[i]) || CapitalOf(b[i], a[i])
  {
    forall i | 0 <= i < |a| == |b|
      ensures Lower(a)[i] == Lower(b)[i] <==> a[i] == b[i] || CapitalOf(a[i], b[i]) || CapitalOf(b[i], a[i])
    {
      SameLetterIff(a[i], b[i]);
    }
    assert SameName(a, b) ==> |a| == |b|;
  }

  /** All pieces of `s` between occurrences of `sep`; always at least one piece. */
  function Split(s: string, sep: char): (parts: seq<string>)
    ensures |parts| >= 1
  {
    if s == "" then [""]
    else
      var rest := Split(s[1..], sep);
      if s[0] == sep then [""] + rest else [[s[0]] + rest[0]] + rest[1..]
  }

  function Join(parts: seq<string>, sep: char): string
    requires |parts| >= 1
  {
    if |parts| == 1 then parts[0] else parts[0] + [sep] + Join(parts[1..], sep)
  }

  ghost predicate Free(parts: seq<string>, c: char) {
    forall p <- parts :: c !in p
  }

  lemma JoinHead(c: char, parts: seq<string>, sep: char)
    requires |parts| >= 1
    ensures Join([[c] + parts[0]] + parts[1..], sep) == [c] + Join(parts, sep)
  {
    var longer := [[c] + parts[0]] + parts[1..];
    if |parts| > 1 {
      var rest := [sep] + Join(parts[1..], sep);
      assert longer[1..] == parts[1..];
      assert Join(parts, sep) == parts[0] + rest;
      assert Join(longer, sep) == ([c] + parts[0]) + rest;
      assert ([c] + parts[0]) + rest == [c] + (parts[0] + rest);
    }
  }

  /** Cutting and gluing with the same separator gives the text back. */
  lemma {:induction false} JoinSplit(s: string, sep: char)
    ensures Join(Split(s, sep), sep) == s && Free(Split(s, sep), sep)
  {
    if s != "" {
      JoinSplit(s[1..], sep);
      var rest := Split(s[1..], sep);
      assert s == [s[0]] + s[1..];
      if s[0] == sep {
        assert ([""] + rest)[1..] == rest;
      } else {
        JoinHead(s[0], rest, sep);
      }
    }
  }

  /** The first separator of `p + [sep] + rest` is the one after a separator-free `p`. */
  lemma {:induction false} SplitFirst(p: string, rest: string, sep: char)
    requires sep !in p
    ensures Split(p, sep) == [p]
    ensures Split(p + [sep] + rest, sep) == [p] + Split(rest, sep)
  {
    var s := p + [sep] + rest;
    if p == "" {
      assert s[1..] == rest;
    } else {
      SplitFirst(p[1..], rest, sep);
      assert s[1..] == p[1..] + [sep] + rest;
      assert [p[0]] + p[1..] == p;
    }
  }

  /** Gluing separator-free pieces and cutting again gives the pieces back. */
  lemma {:induction false} SplitJoin(parts: seq<string>, sep: char)
    requires |parts| >= 1 && Free(parts, sep)
    ensures Split(Join(parts, sep), sep) == parts
  {
    if |parts| == 1 {
      SplitFirst(parts[0], "", sep);
    } else {
      SplitJoin(parts[1..], sep);
      SplitFirst(parts[0], Join(parts[1..], sep), sep);
      assert [parts[0]] + parts[1..] == parts;
    }
  }

  /** A character other than the separator occurs in the glued text iff it occurs in a piece. */
  lemma {:induction false} JoinFree(parts: seq<string>, sep: char, c: char)
    requires |parts| >= 1 && c != sep
    ensures c !in Join(parts, sep) <==> Free(parts, c)
  {
    if |parts| > 1 {
      JoinFree(parts[1..], sep, c);
      assert parts == [parts[0]] + parts[1..];
    }
  }

  /** The same, read from the text to its pieces. */
  lemma SplitFree(s: string, sep: char, c: char)
    requires c != sep && c !in s
    ensures Free(Split(s, sep), c)
  {
    JoinSplit(s, sep);
    JoinFree(Split(s, sep), sep, c);
  }
}
