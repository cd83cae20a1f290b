/**
  The two string helpers of the host program: `removeChar`, which is
  `erase(remove(...))`, and `splitStr`, which collects the pieces
  `std::getline` yields for a delimiter. `Join` is the inverse used to state
  what `Split` preserves.
 */
module HostStrings {

  /** `removeChar`: every occurrence of `c` is dropped; the rest keep their order. */
  function RemoveChar(s: string, c: char): (r: string)
    ensures c !in r
    ensures |r| <= |s|
    ensures forall x | x != c :: multiset(r)[x] == multiset(s)[x]
    ensures c !in s ==> r == s
    decreases |s|
  {
    if s == [] then []
    else
      var rest := RemoveChar(s[1..], c);
      assert s == [s[0]] + s[1..];
      if s[0] == c then rest else [s[0]] + rest
  }

  /** Removal distributes over concatenation; with the single-character cases this fixes the order of what is kept. */
  lemma {:induction false} RemoveCharConcat(a: string, b: string, c: char)
    ensures RemoveChar(a + b, c) == RemoveChar(a, c) + RemoveChar(b, c)
    decreases |a|
  {
    if a == [] {
      assert a + b == b;
    } else {
      assert (a + b)[0] == a[0];
      assert (a + b)[1..] == a[1..] + b;
      RemoveCharConcat(a[1..], b, c);
    }
  }

  /** Removing the same character twice is the same as removing it once. */
  lemma RemoveCharIdempotent(s: string, c: char)
    ensures RemoveChar(RemoveChar(s, c), c) == RemoveChar(s, c)
  {
  }

  /** The position of the first `d` in `s`, or `|s|` when there is none. */
  function IndexOf(s: string, d: char): (i: nat)
    ensures i <= |s|
    ensures d !in s[..i]
    ensures i < |s| ==> s[i] == d
    decreases |s|
  {
    if s == [] then 0
    else if s[0] == d then 0
    else
      var j := IndexOf(s[1..], d);
      assert s[..j + 1] == [s[0]] + s[1..][..j];
      j + 1
  }

  /**
    `splitStr`: the fields `std::getline` reads up to each delimiter. An empty
    string yields nothing; a final delimiter does not open a last, empty
    field; empty fields before it are kept.
   */
  function Split(s: string, d: char): (r: seq<string>)
    ensures s == [] <==> r == []
    ensures forall i | 0 <= i < |r| :: d !in r[i]
    decreases |s|
  {
    if s == [] then []
    else
      var i := IndexOf(s, d);
      if i == |s| then [s] else [s[..i]] + Split(s[i + 1..], d)
  }

  /** The fields joined with `d` between consecutive ones. */
  function Join(ts: seq<string>, d: char): string
    decreases |ts|
  {
    if ts == [] then []
    else if |ts| == 1 then ts[0]
    else ts[0] + [d] + Join(ts[1..], d)
  }

  /** Three fields joined: the delimiter between each neighbouring pair. */
  lemma JoinThree(a: string, b: string, c: string, d: char)
    ensures Join([a, b, c], d) == a + [d] + b + [d] + c
  {
    assert [a, b, c][1..] == [b, c];
    assert [b, c][1..] == [c];
    assert Join([c], d) == c;
    assert Join([b, c], d) == b + [d] + c;
  }

  /** Joining two non-empty runs of fields puts one delimiter between their joins. */
  lemma {:induction false} JoinAppend(x: seq<string>, y: seq<string>, d: char)
    requires x != [] && y != []
    ensures Join(x + y, d) == Join(x, d) + [d] + Join(y, d)
    decreases |x|
  {
    if |x| == 1 {
      assert (x + y)[1..] == y;
    } else {
      assert (x + y)[1..] == x[1..] + y;
      JoinAppend(x[1..], y, d);
    }
  }

  /** The input without one final delimiter, if it has one. */
  function DropFinal(s: string, d: char): string
  {
    if s != [] && s[|s| - 1] == d then s[..|s| - 1] else s
  }

  /** Joining the fields gives back the input, up to one dropped final delimiter. */
  lemma {:induction false} JoinSplit(s: string, d: char)
    ensures Join(Split(s, d), d) == DropFinal(s, d)
    decreases |s|
  {
    if s != [] {
      var i := IndexOf(s, d);
      if i == |s| {
        assert s[..i] == s;
      } else {
        var rest := s[i + 1..];
        JoinSplit(rest, d);
        assert s == s[..i] + [d] + rest;
        if rest == [] {
          assert Split(s, d) == [s[..i]];
          assert s[|s| - 1] == d;
          assert s[..|s| - 1] == s[..i];
        } else {
          JoinFirstField(s[..i], rest, d, Split(s, d));
        }
      }
    }
  }

  /** One step of `JoinSplit`: a first field, the delimiter, and a non-empty rest that already round-trips. */
  lemma JoinFirstField(head: string, rest: string, d: char, ts: seq<string>)
    requires rest != []
    requires ts == [head] + Split(rest, d)
    requires Join(Split(rest, d), d) == DropFinal(rest, d)
    ensures Join(ts, d) == DropFinal(head + [d] + rest, d)
  {
    var tail := Split(rest, d);
    var s := head + [d] + rest;
    assert |tail| > 0;
    assert ts[1..] == tail;
    assert Join(ts, d) == head + [d] + Join(tail, d);
    if rest[|rest| - 1] == d {
      assert s[|s| - 1] == d;
      assert s[..|s| - 1] == head + [d] + rest[..|rest| - 1];
    } else {
      assert s[|s| - 1] != d;
    }
  }

  /** A field free of `d` followed by `d` and more: the first field is exactly that field. */
  lemma IndexOfJoined(t: string, rest: string, d: char)
    requires d !in t
    ensures IndexOf(t + [d] + rest, d) == |t|
  {
    var s := t + [d] + rest;
    assert s[..|t|] == t;
    assert s[|t|] == d;
    assert forall j | 0 <= j < |t| :: s[j] != d by {
      forall j | 0 <= j < |t|
        ensures s[j] != d
      {
        assert s[j] == t[j];
      }
    }
  }

  /** Splitting joined fields gives them back, provided none holds `d` and the last one is not empty. */
  lemma {:induction false} SplitJoin(ts: seq<string>, d: char)
    requires forall i | 0 <= i < |ts| :: d !in ts[i]
    requires ts == [] || ts[|ts| - 1] != []
    ensures Split(Join(ts, d), d) == ts
    decreases |ts|
  {
    if ts == [] {
    } else if |ts| == 1 {
      var s := ts[0];
      assert IndexOf(s, d) == |s|;
    } else {
      var tail := Join(ts[1..], d);
      var s := ts[0] + [d] + tail;
      assert Join(ts, d) == s;
      IndexOfJoined(ts[0], tail, d);
      assert s[..|ts[0]|] == ts[0];
      assert s[|ts[0]| + 1..] == tail;
      SplitJoin(ts[1..], d);
      assert ts == [ts[0]] + ts[1..];
    }
  }
}
