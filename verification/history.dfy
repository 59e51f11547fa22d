/**
  The per-user click history (`User.add_history` and the dashboard's read-back,
  app.py). The history column holds the clicked news codes joined by commas;
  a NULL or empty column means "no history".
 */
module History {
  import opened Wrappers
  import opened Seqs
  import opened Delimited

  /** Python truthiness of an optional string: present and non-empty. */
  predicate Truthy(h: Option<string>) {
    h.Some? && h.value != ""
  }

  /**
    `add_history(code)`: the new value of the history column. An existing
    history is split on commas, the code is appended only if it is not one of
    the pieces, and the pieces are joined again; a falsy history becomes the
    code alone.
   */
  function AddHistory(h: Option<string>, code: string): (r: string)
    ensures !Truthy(h) ==> r == code
    ensures Truthy(h) && code in Split(h.value) ==> r == h.value
    ensures Truthy(h) && code !in Split(h.value) ==>
              r == h.value + [Comma] + code && Split(r) == Split(h.value) + Split(code)
  {
    if Truthy(h) then
      var pieces := Split(h.value);
      JoinSplit(h.value);
      if code !in pieces then
        JoinAppend(pieces, code);
        SplitAround(h.value, code);
        Join(pieces + [code])
      else
        Join(pieces)
    else
      Join([code])
  }

  /** The dashboard's list: the history's pieces, or nothing for a falsy history. */
  function Dashboard(h: Option<string>): (codes: seq<string>)
    ensures !Truthy(h) <==> codes == []
    ensures Truthy(h) ==> Join(codes) == h.value
    ensures forall k :: 0 <= k < |codes| ==> Comma !in codes[k]
  {
    if Truthy(h) then
      JoinSplit(h.value);
      Split(h.value)
    else []
  }

  /** A list with `x` added at the end unless it is already there. */
  function AppendNew(codes: seq<string>, x: string): seq<string>
  {
    if x in codes then codes else codes + [x]
  }

  /**
    Seen through the dashboard, a click on a non-empty comma-free code appends
    it at the end unless it is already listed; earlier codes keep their order.
   */
  lemma DashboardAfterClick(h: Option<string>, code: string)
    requires code != "" && Comma !in code
    ensures Dashboard(Some(AddHistory(h, code))) == AppendNew(Dashboard(h), code)
  {
    SplitSingle(code);
  }

  /** Clicking the same comma-free code twice leaves the history as one click did. */
  lemma AddHistoryIdempotent(h: Option<string>, code: string)
    requires Comma !in code
    ensures AddHistory(Some(AddHistory(h, code)), code) == AddHistory(h, code)
  {
    var r := AddHistory(h, code);
    SplitSingle(code);
    if Truthy(h) && code !in Split(h.value) {
      assert Split(r) == Split(h.value) + [code];
      assert code in Split(r);
    }
  }

  /**
    A code containing the delimiter defeats the duplicate check: the stored
    pieces never equal the whole code, so every click appends it again.
   */
  lemma CommaCodeIsNotIdempotent()
    ensures AddHistory(None, "b,c") == "b,c"
    ensures AddHistory(Some("b,c"), "b,c") == "b,c,b,c"
  {
    var s := "b,c";
    assert IndexOf(s, Comma) == 1;
    assert s[..1] == "b" && s[2..] == "c";
    assert Split(s) == ["b", "c"];
  }

  /** Clicking a comma-free code never introduces a duplicate on the dashboard. */
  lemma AddHistoryKeepsNoDup(h: Option<string>, code: string)
    requires NoDup(Dashboard(h))
    requires Comma !in code
    ensures NoDup(Dashboard(Some(AddHistory(h, code))))
  {
    SplitSingle(code);
    var r := AddHistory(h, code);
    if Truthy(h) && code !in Split(h.value) {
      var d := Split(h.value) + [code];
      assert Dashboard(Some(r)) == d;
      forall i, j | 0 <= i < j < |d|
        ensures d[i] != d[j]
      {
        if j == |d| - 1 {
          assert d[i] in Split(h.value);
        }
      }
    }
  }

  /** The history after clicking `codes` in order, starting from `h`. */
  function Replay(h: Option<string>, codes: seq<string>): Option<string>
    decreases |codes|
  {
    if |codes| == 0 then h
    else Some(AddHistory(Replay(h, codes[..|codes| - 1]), codes[|codes| - 1]))
  }

  /**
    The distinct codes of `codes` in order of first occurrence: a code is kept
    at the position where it first appears and dropped everywhere after.
   */
  function Distinct(codes: seq<string>): (d: seq<string>)
    ensures NoDup(d)
    ensures forall x :: x in d <==> x in codes
    ensures forall i, j :: 0 <= i < j < |d| ==> IndexOf(codes, d[i]) < IndexOf(codes, d[j])
    decreases |codes|
  {
    if |codes| == 0 then []
    else
      var prefix := codes[..|codes| - 1];
      var last := codes[|codes| - 1];
      var d := Distinct(prefix);
      assert codes == prefix + [last];
      forall x | x in prefix
        ensures IndexOf(codes, x) == IndexOf(prefix, x)
      {
        IndexOfExtend(prefix, [last], x);
      }
      if last in prefix then d
      else
        IndexOfAfterPrefix(prefix, last, []);
        assert IndexOf(codes, last) == |prefix|;
        assert forall i :: 0 <= i < |d| ==> IndexOf(codes, d[i]) < |prefix|;
        d + [last]
  }

  /**
    Starting from no history, after any sequence of saved clicks (each code
    non-empty and comma-free) the dashboard lists the distinct clicked codes
    in first-click order.
   */
  lemma {:induction false} DashboardIsDistinctClicks(h: Option<string>, codes: seq<string>)
    requires !Truthy(h)
    requires forall k :: 0 <= k < |codes| ==> codes[k] != "" && Comma !in codes[k]
    ensures Dashboard(Replay(h, codes)) == Distinct(codes)
    decreases |codes|
  {
    if |codes| > 0 {
      var prefix := codes[..|codes| - 1];
      var last := codes[|codes| - 1];
      DashboardIsDistinctClicks(h, prefix);
      DashboardAfterClick(Replay(h, prefix), last);
    }
  }
}
