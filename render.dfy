// The text bmpgrep writes to standard output: the reported top-left
// corners as `x,y,x,y,...` on one line, followed by a newline only when at
// least one corner was written. `Decode` reads that text back.

module Render {

  datatype Option<T> = None | Some(value: T)

  /** A reported top-left corner in the big image. */
  datatype Coord = Coord(x: nat, y: nat)

  predicate IsDigit(c: char) { '0' <= c <= '9' }

  predicate AllDigits(s: string) { forall i :: 0 <= i < |s| ==> IsDigit(s[i]) }

  function Digit(d: nat): (c: char)
    requires d < 10
    ensures IsDigit(c)
  {
    ('0' as int + d) as char
  }

  /** The decimal numeral of `n`, as `operator<<` on an int writes it. */
  function Decimal(n: nat): (s: string)
    ensures |s| >= 1 && AllDigits(s)
    ensures s[0] == '0' ==> n == 0
  {
    if n < 10 then [Digit(n)] else Decimal(n / 10) + [Digit(n % 10)]
  }

  /** The number a numeral denotes. */
  function Value(s: string): nat
    requires AllDigits(s)
  {
    if s == [] then 0 else Value(s[..|s| - 1]) * 10 + (s[|s| - 1] as int - '0' as int)
  }

  /** Joins fields with a comma between consecutive ones. */
  function Join(fields: seq<string>): string
  {
    if |fields| == 0 then []
    else if |fields| == 1 then fields[0]
    else fields[0] + "," + Join(fields[1..])
  }

  /** The fields of a line, cut at every comma. */
  function Split(s: string): (fields: seq<string>)
    ensures |fields| >= 1
  {
    if s == [] then [[]]
    else
      var rest := Split(s[1..]);
      if s[0] == ',' then [[]] + rest else [[s[0]] + rest[0]] + rest[1..]
  }

  /** Two numerals per corner, x before y. */
  function Numerals(hits: seq<Coord>): seq<string>
  {
    if hits == [] then [] else [Decimal(hits[0].x), Decimal(hits[0].y)] + Numerals(hits[1..])
  }

  /** The line of corners, without its newline. */
  function Line(hits: seq<Coord>): string
  {
    Join(Numerals(hits))
  }

  /** Everything written to standard output. */
  function Output(hits: seq<Coord>): string
  {
    if hits == [] then [] else Line(hits) + "\n"
  }

  function ParseNumeral(s: string): Option<nat>
  {
    if s != [] && AllDigits(s) then Some(Value(s)) else None
  }

  /** Pairs consecutive numeric fields into corners. */
  function Pairs(fields: seq<string>): Option<seq<Coord>>
  {
    if fields == [] then Some([])
    else if |fields| == 1 then None
    else
      match (ParseNumeral(fields[0]), ParseNumeral(fields[1]), Pairs(fields[2..]))
      case (Some(x), Some(y), Some(rest)) => Some([Coord(x, y)] + rest)
      case _ => None
  }

  /** Reads the program's output back into the list of corners. */
  function Decode(out: string): Option<seq<Coord>>
  {
    if out == [] then Some([])
    else if out[|out| - 1] != '\n' then None
    else Pairs(Split(out[..|out| - 1]))
  }

  lemma {:induction false} ValueOfDecimal(n: nat)
    ensures Value(Decimal(n)) == n
  {
    if n >= 10 {
      ValueOfDecimal(n / 10);
      var s := Decimal(n);
      assert s[..|s| - 1] == Decimal(n / 10);
    }
  }

  lemma {:induction false} JoinAppend(a: seq<string>, b: seq<string>)
    requires a != [] && b != []
    ensures Join(a + b) == Join(a) + "," + Join(b)
  {
    if |a| == 1 {
      assert a + b == [a[0]] + b;
    } else {
      assert (a + b)[1..] == a[1..] + b;
      JoinAppend(a[1..], b);
    }
  }

  lemma {:induction false} NumeralsAppend(hits: seq<Coord>, c: Coord)
    ensures Numerals(hits + [c]) == Numerals(hits) + [Decimal(c.x), Decimal(c.y)]
  {
    if hits == [] {
      assert [c][1..] == [];
    } else {
      assert (hits + [c])[1..] == hits[1..] + [c];
      NumeralsAppend(hits[1..], c);
    }
  }

  lemma {:induction false} NumeralsLength(hits: seq<Coord>)
    ensures |Numerals(hits)| == 2 * |hits|
  {
    if hits != [] { NumeralsLength(hits[1..]); }
  }

  /**
   * Writing one more corner appends a comma only when something was
   * written before, then `x,y`: the incremental form the program uses.
   */
  lemma LineAppend(hits: seq<Coord>, c: Coord)
    ensures Line(hits + [c]) ==
      (if hits == [] then [] else Line(hits) + ",") + Decimal(c.x) + "," + Decimal(c.y)
  {
    NumeralsAppend(hits, c);
    var pair := [Decimal(c.x), Decimal(c.y)];
    assert Join(pair) == Decimal(c.x) + "," + Decimal(c.y) by {
      assert pair[1..] == [Decimal(c.y)];
    }
    if hits == [] {
      assert Numerals(hits) + pair == pair;
    } else {
      NumeralsLength(hits);
      JoinAppend(Numerals(hits), pair);
    }
  }

  lemma {:induction false} SplitNoComma(t: string, s: string)
    requires ',' !in t
    ensures Split(t + s) == [t + Split(s)[0]] + Split(s)[1..]
  {
    if t != [] {
      assert (t + s)[1..] == t[1..] + s;
      assert (t + s)[0] == t[0];
      SplitNoComma(t[1..], s);
      assert [t[0]] + (t[1..] + Split(s)[0]) == t + Split(s)[0];
    } else {
      assert t + s == s;
      assert t + Split(s)[0] == Split(s)[0];
      assert Split(s) == [Split(s)[0]] + Split(s)[1..];
    }
  }

  lemma {:induction false} SplitJoin(fields: seq<string>)
    requires fields != []
    requires forall i :: 0 <= i < |fields| ==> ',' !in fields[i]
    ensures Split(Join(fields)) == fields
  {
    if |fields| == 1 {
      SplitNoComma(fields[0], []);
      assert fields[0] + [] == fields[0];
    } else {
      var rest := "," + Join(fields[1..]);
      SplitNoComma(fields[0], rest);
      assert rest[0] == ',' && rest[1..] == Join(fields[1..]);
      SplitJoin(fields[1..]);
      assert Split(rest) == [[]] + fields[1..];
      assert fields[0] + rest == Join(fields);
      assert fields[0] + [] == fields[0];
      assert [fields[0]] + fields[1..] == fields;
    }
  }

  lemma {:induction false} PairsNumerals(hits: seq<Coord>)
    ensures Pairs(Numerals(hits)) == Some(hits)
  {
    if hits != [] {
      var ns := Numerals(hits);
      assert ns[2..] == Numerals(hits[1..]);
      PairsNumerals(hits[1..]);
      ValueOfDecimal(hits[0].x);
      ValueOfDecimal(hits[0].y);
      assert [hits[0]] + hits[1..] == hits;
    }
  }

  lemma {:induction false} NumeralsHaveNoComma(hits: seq<Coord>)
    ensures forall i :: 0 <= i < |Numerals(hits)| ==> ',' !in Numerals(hits)[i]
  {
    if hits != [] {
      NumeralsHaveNoComma(hits[1..]);
      var ns := Numerals(hits);
      forall i | 0 <= i < |ns| ensures ',' !in ns[i] {
        if i >= 2 { assert ns[i] == Numerals(hits[1..])[i - 2]; }
        else {
          var d := ns[i];
          assert AllDigits(d);
          assert forall k :: 0 <= k < |d| ==> d[k] != ',';
        }
      }
    }
  }

  /** Reading the output back gives exactly the corners that were reported. */
  lemma DecodeOutput(hits: seq<Coord>)
    ensures Decode(Output(hits)) == Some(hits)
  {
    if hits != [] {
      var out := Output(hits);
      assert out[..|out| - 1] == Line(hits);
      NumeralsLength(hits);
      NumeralsHaveNoComma(hits);
      SplitJoin(Numerals(hits));
      PairsNumerals(hits);
    }
  }

  lemma {:induction false} JoinEnds(fields: seq<string>)
    requires fields != []
    requires forall i :: 0 <= i < |fields| ==> fields[i] != [] && AllDigits(fields[i])
    ensures Join(fields) != []
    ensures IsDigit(Join(fields)[0]) && IsDigit(Join(fields)[|Join(fields)| - 1])
  {
    if |fields| > 1 {
      JoinEnds(fields[1..]);
      var j := Join(fields);
      assert j[0] == fields[0][0];
      assert j[|j| - 1] == Join(fields[1..])[|Join(fields[1..])| - 1];
    }
  }

  /**
   * Nothing is written when there are no corners; otherwise the line
   * starts and ends with a digit (no stray separator) and ends in a newline.
   */
  lemma OutputShape(hits: seq<Coord>)
    ensures Output(hits) == [] <==> hits == []
    ensures hits != [] ==>
      var out := Output(hits);
      |out| >= 2 && out[|out| - 1] == '\n' && IsDigit(out[0]) && IsDigit(out[|out| - 2])
  {
    if hits != [] {
      var ns := Numerals(hits);
      NumeralsLength(hits);
      forall i | 0 <= i < |ns| ensures ns[i] != [] && AllDigits(ns[i]) {
        NumeralsAreNumerals(hits, i);
      }
      JoinEnds(ns);
    }
  }

  lemma {:induction false} NumeralsAreNumerals(hits: seq<Coord>, i: int)
    requires 0 <= i < |Numerals(hits)|
    ensures Numerals(hits)[i] != [] && AllDigits(Numerals(hits)[i])
  {
    if i >= 2 {
      NumeralsAreNumerals(hits[1..], i - 2);
    }
  }
}
