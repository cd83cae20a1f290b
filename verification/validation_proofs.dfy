/**
  What the input checks do on the filters and devices the program meets:
  the default filter and an identity filter are accepted, an even or a
  non-square tap count is refused, and `getline` keeps interior empty
  fields; the capability predicate accepts a smaller image wherever it
  accepts a larger one and does not look at the group-size or local-memory
  limits.
 */
module ValidationProofs {
  import opened Results
  import opened HostStrings
  import opened Registry
  import opened Validation

  /** A character that is in no field and is not the delimiter is not in the joined text. */
  lemma {:induction false} NotInJoin(ts: seq<string>, d: char, c: char)
    requires c != d
    requires forall i | 0 <= i < |ts| :: c !in ts[i]
    ensures c !in Join(ts, d)
    decreases |ts|
  {
    if |ts| > 1 {
      NotInJoin(ts[1..], d, c);
      assert c !in ts[0] + [d];
    }
  }

  /** Parentheses around a parenthesis-free body are all that `removeChar` takes away. */
  lemma StripParens(body: string)
    requires '(' !in body && ')' !in body
    ensures Taps("(" + body + ")") == Split(body, ',')
  {
    var open, close := "(", ")";
    var withOpen := open + body;
    assert RemoveChar(open, '(') == [] by {
      assert open[1..] == [];
    }
    assert RemoveChar(close, ')') == [] by {
      assert close[1..] == [];
    }
    RemoveCharConcat(open, body, '(');
    assert RemoveChar(withOpen, '(') == body;
    RemoveCharConcat(withOpen, close, '(');
    var kept := RemoveChar(withOpen + close, '(');
    assert kept == body + close;
    RemoveCharConcat(body, close, ')');
    assert RemoveChar(kept, ')') == body;
  }

  /** A filter written as parenthesised, comma-separated taps yields exactly those taps. */
  lemma TapsOfFilterText(ts: seq<string>)
    requires forall i | 0 <= i < |ts| :: ',' !in ts[i] && '(' !in ts[i] && ')' !in ts[i]
    requires ts == [] || ts[|ts| - 1] != []
    ensures Taps("(" + Join(ts, ',') + ")") == ts
  {
    NotInJoin(ts, ',', '(');
    NotInJoin(ts, ',', ')');
    StripParens(Join(ts, ','));
    SplitJoin(ts, ',');
  }

  /** The default filter's fields are exactly its nine taps. */
  lemma DefaultKernelTaps()
    ensures Taps(DEFAULT_KERNEL) == DEFAULT_TAPS
  {
    DefaultTapsArePlain();
    TapsOfFilterText(DEFAULT_TAPS);
  }

  lemma DefaultTapsArePlain()
    ensures forall i | 0 <= i < |DEFAULT_TAPS| ::
      ',' !in DEFAULT_TAPS[i] && '(' !in DEFAULT_TAPS[i] && ')' !in DEFAULT_TAPS[i]
  {
  }

  /**
    The default filter is, character for character, the text `main` writes
    as three adjacent string literals: one row of the 3 x 3 filter per line.
   */
  lemma DefaultKernelText()
    ensures DEFAULT_KERNEL ==
      "(0.000134,0.004432,0.053991," + "0.241971,0.398943,0.241971," + "0.053991,0.004432,0.000134)"
  {
    var a, b, c := DEFAULT_TAPS[..3], DEFAULT_TAPS[3..6], DEFAULT_TAPS[6..];
    assert DEFAULT_TAPS == a + b + c;
    JoinAppend(a + b, c, ',');
    JoinAppend(a, b, ',');
    FirstRowText(a);
    SecondRowText(b);
    ThirdRowText(c);
    RowsAssemble(Join(a, ','), Join(b, ','), Join(c, ','),
      "(0.000134,0.004432,0.053991,", "0.241971,0.398943,0.241971,", "0.053991,0.004432,0.000134)");
  }

  lemma FirstRowText(a: seq<string>)
    requires a == ["0.000134", "0.004432", "0.053991"]
    ensures "(" + Join(a, ',') + [','] == "(0.000134,0.004432,0.053991,"
  {
    JoinThree("0.000134", "0.004432", "0.053991", ',');
  }

  lemma SecondRowText(b: seq<string>)
    requires b == ["0.241971", "0.398943", "0.241971"]
    ensures Join(b, ',') + [','] == "0.241971,0.398943,0.241971,"
  {
    JoinThree("0.241971", "0.398943", "0.241971", ',');
  }

  lemma ThirdRowText(c: seq<string>)
    requires c == ["0.053991", "0.004432", "0.000134"]
    ensures Join(c, ',') + ")" == "0.053991,0.004432,0.000134)"
  {
    JoinThree("0.053991", "0.004432", "0.000134", ',');
  }

  /** Three joined rows, bracketed and separated by commas, are the three lines one after another. */
  lemma RowsAssemble(ja: string, jb: string, jc: string, l1: string, l2: string, l3: string)
    requires "(" + ja + [','] == l1 && jb + [','] == l2 && jc + ")" == l3
    ensures "(" + (ja + [','] + jb + [','] + jc) + ")" == l1 + l2 + l3
  {
  }

  /** The default filter is accepted as a 3 x 3 kernel of 36 bytes whose taps are its nine fields. */
  lemma DefaultKernelAccepted()
    ensures LoadSmoothKernel(DEFAULT_KERNEL) == Success(SmoothKernel(3, 36, DEFAULT_TAPS))
  {
    DefaultKernelTaps();
    assert |Taps(DEFAULT_KERNEL)| == 9;
    assert Square(3) == 9;
    SquareRootOfSquare(3);
  }

  /** The one-tap identity filter `(1)` is accepted with dimension 1. */
  lemma IdentityFilterAccepted()
    ensures LoadSmoothKernel("(1)") == Success(SmoothKernel(1, 4, ["1"]))
  {
    assert Join(["1"], ',') == "1";
    TapsOfFilterText(["1"]);
    assert Square(1) == 1;
  }

  /** An even tap count such as `(0.1,0.2)` is refused. */
  lemma EvenFilterRejected()
    ensures LoadSmoothKernel("(0.1,0.2)") == Failure(UnsupportedKernelSize(2))
  {
    var ts := ["0.1", "0.2"];
    assert ts[1..] == ["0.2"];
    assert Join(ts, ',') == "0.1" + "," + "0.2";
    assert "(" + ("0.1" + "," + "0.2") + ")" == "(0.1,0.2)";
    TapsOfFilterText(ts);
    assert |Taps("(0.1,0.2)")| == 2;
  }

  /** An odd tap count that is not a square, such as 3, is refused. */
  lemma ThreeTapFilterRejected()
    ensures LoadSmoothKernel("(0.25,0.5,0.25)") == Failure(UnsupportedKernelSize(3))
  {
    var ts := ["0.25", "0.5", "0.25"];
    assert ts[1..] == ["0.5", "0.25"] && ts[1..][1..] == ["0.25"];
    assert Join(ts, ',') == "0.25" + "," + ("0.5" + "," + "0.25");
    assert "(" + ("0.25" + "," + ("0.5" + "," + "0.25")) + ")" == "(0.25,0.5,0.25)";
    TapsOfFilterText(ts);
    assert |Taps("(0.25,0.5,0.25)")| == 3;
    ThreeIsNotSquare();
  }

  lemma ThreeIsNotSquare()
    ensures !IsPerfectSquare(3)
  {
    forall d: nat
      ensures Square(d) != 3
    {
      if d >= 2 {
        assert d * d >= 2 * d;
      }
    }
  }

  /** `getline` keeps interior empty fields but opens no field after a final delimiter. */
  lemma GetlineFields()
    ensures Split("a,,b", ',') == ["a", "", "b"]
    ensures Split("a,", ',') == ["a"]
    ensures Split(",", ',') == [""]
    ensures Split("", ',') == []
  {
    GetlineKeepsInteriorEmptyField();
    GetlineOpensNoFinalField();
  }

  lemma GetlineKeepsInteriorEmptyField()
    ensures Split("a,,b", ',') == ["a", "", "b"]
  {
    var ts := ["a", "", "b"];
    assert ts[1..] == ["", "b"] && ts[1..][1..] == ["b"];
    assert Join(ts, ',') == "a" + "," + ("" + "," + "b");
    assert "a" + "," + ("" + "," + "b") == "a,,b";
    SplitJoin(ts, ',');
  }

  lemma GetlineOpensNoFinalField()
    ensures Split("a,", ',') == ["a"]
    ensures Split(",", ',') == [""]
  {
    assert IndexOf("a,", ',') == 1;
    assert "a,"[..1] == "a" && "a,"[2..] == [];
    assert IndexOf(",", ',') == 0;
    assert ","[..0] == "" && ","[1..] == [];
  }

  // ---------------------------------------------------------------- capability predicate

  /** A device that fits an image fits every image no wider and no taller. */
  lemma SmallerImageFits(width: nat, height: nat, w: nat, h: nat, caps: DeviceCaps)
    requires BlurFits(width, height, caps)
    requires w <= width && h <= height
    ensures BlurFits(w, h, caps)
  {
  }

  /**
    The predicate decides on the work-item dimensions and sizes alone: the
    reported work-group size and local memory never change its answer.
   */
  lemma FitIgnoresGroupLimits(width: nat, height: nat, caps: DeviceCaps, groupSize: nat, localMemory: nat)
    ensures var other := caps.(maxWorkGroupSize := groupSize, maxLocalMemory := localMemory);
      BlurFits(width, height, caps) == BlurFits(width, height, other)
  {
  }
}
