/**
  Python's `str.split(",")` and `",".join(...)`, the two operations through
  which the click history stores a list of codes in one text column.
 */
module Delimited {
  import opened Seqs

  /** The delimiter between codes in the history column. */
  const Comma: char := ','

  /**
    `s.split(",")`: the pieces of `s` between commas, in order. Like Python,
    the empty string splits into one empty piece and adjacent commas yield
    empty pieces.
   */
  function Split(s: string): (parts: seq<string>)
    ensures |parts| >= 1
    ensures forall k :: 0 <= k < |parts| ==> Comma !in parts[k]
    decreases |s|
  {
    if Comma !in s then [s]
    else
      var i := IndexOf(s, Comma);
      [s[..i]] + Split(s[i + 1..])
  }

  /** `",".join(parts)`: the pieces with one comma between neighbours. */
  function Join(parts: seq<string>): string
  {
    if |parts| == 0 then ""
    else if |parts| == 1 then parts[0]
    else parts[0] + [Comma] + Join(parts[1..])
  }

  /** Joining splits back together reproduces any string. */
  lemma {:induction false} JoinSplit(s: string)
    ensures Join(Split(s)) == s
    decreases |s|
  {
    if Comma in s {
      var i := IndexOf(s, Comma);
      var rest := Split(s[i + 1..]);
      JoinSplit(s[i + 1..]);
      assert ([s[..i]] + rest)[1..] == rest;
      assert s == s[..i] + [Comma] + s[i + 1..];
    }
  }

  /** A non-empty list of comma-free pieces survives joining and splitting again. */
  lemma {:induction false} SplitJoin(parts: seq<string>)
    requires |parts| >= 1
    requires forall k :: 0 <= k < |parts| ==> Comma !in parts[k]
    ensures Split(Join(parts)) == parts
    decreases |parts|
  {
    if |parts| > 1 {
      var tail := Join(parts[1..]);
      var s := parts[0] + [Comma] + tail;
      IndexOfAfterPrefix(parts[0], Comma, tail);
      assert s[..|parts[0]|] == parts[0];
      assert s[|parts[0]| + 1..] == tail;
      SplitJoin(parts[1..]);
    }
  }

  /** Splitting text glued with a comma splits each side separately. */
  lemma {:induction false} SplitAround(a: string, b: string)
    ensures Split(a + [Comma] + b) == Split(a) + Split(b)
    decreases |a|
  {
    var s := a + [Comma] + b;
    if Comma !in a {
      IndexOfAfterPrefix(a, Comma, b);
      assert s[..|a|] == a;
      assert s[|a| + 1..] == b;
    } else {
      var i := IndexOf(a, Comma);
      var a' := a[i + 1..];
      assert s == a + ([Comma] + b);
      IndexOfExtend(a, [Comma] + b, Comma);
      assert Comma in s && IndexOf(s, Comma) == i;
      assert s[..i] == a[..i];
      assert s[i + 1..] == a' + [Comma] + b;
      calc {
        Split(s);
        [a[..i]] + Split(a' + [Comma] + b);
        { SplitAround(a', b); }
        [a[..i]] + (Split(a') + Split(b));
        ([a[..i]] + Split(a')) + Split(b);
      }
    }
  }

  /** Appending one piece to a non-empty list adds one comma and the piece at the end. */
  lemma {:induction false} JoinAppend(parts: seq<string>, x: string)
    requires |parts| >= 1
    ensures Join(parts + [x]) == Join(parts) + [Comma] + x
    decreases |parts|
  {
    if |parts| > 1 {
      assert (parts + [x])[1..] == parts[1..] + [x];
      JoinAppend(parts[1..], x);
    }
  }

  /** A string splits into itself alone exactly when it has no comma. */
  lemma SplitSingle(s: string)
    ensures Split(s) == [s] <==> Comma !in s
  {
    if Comma in s {
      var i := IndexOf(s, Comma);
      assert |Split(s)[0]| == i < |s|;
    }
  }
}
