/**
 * Which states have a CDL image for which year: every requested state from 2008 on,
 * fixed lists of states before that, and the per-state year lists built from them.
 */
module CdlYears {
  import opened Wrappers
  import opened Args

  /** The states with a state-level CDL image in a year before 2008. */
  function EarlyStates(year: int): Option<seq<string>>
  {
    if year == 2007 then Some(["AR", "IA", "ID", "IL", "IN", "KS", "LA", "MI", "MN", "MO",
                               "MS", "MT", "ND", "NE", "OH", "OK", "OR", "SD", "WA", "WI"])
    else if year == 2006 then Some(["AR", "IA", "IL", "IN", "KS", "LA", "MN", "MO",
                                    "MS", "ND", "NE", "OH", "OK", "SD", "WI"])
    else if year == 2005 then Some(["AR", "IA", "IL", "IN", "MO", "MS", "ND", "NE", "WI"])
    else if year == 2004 then Some(["AR", "FL", "IA", "IL", "IN", "MO", "MS", "ND", "NE", "WI"])
    else if year == 2003 then Some(["AR", "IA", "IL", "IN", "MO", "MS", "ND", "NE", "WI"])
    else if year == 2002 then Some(["AR", "IA", "IL", "IN", "MO", "MS", "ND", "NE",
                                    "NC", "VA", "WV", "MD", "DE", "PA", "NJ", "NY", "CT", "RI"])
    else if year == 2001 then Some(["AR", "IA", "IL", "IN", "MO", "MS", "ND", "NE"])
    else if year == 2000 then Some(["AR", "IA", "IL", "IN", "MS", "ND"])
    else if year == 1999 then Some(["AR", "IL", "MS", "ND"])
    else if year == 1998 then Some(["ND"])
    else if year == 1997 then Some(["ND"])
    else None
  }

  /** cdl_year_states[year]: None when the year is not a key. */
  function YearStates(year: int, states: seq<string>): Option<seq<string>>
  {
    if 2008 <= year <= 2024 then Some(states) else EarlyStates(year)
  }

  /** cdl_year_states lists state under year. */
  predicate Listed(year: int, state: string, states: seq<string>) {
    YearStates(year, states).Some? && state in YearStates(year, states).value
  }

  /** How often s occurs in l. */
  function Occ(l: seq<string>, s: string): nat
    decreases |l|
  {
    if |l| == 0 then 0 else Occ(l[..|l| - 1], s) + (if l[|l| - 1] == s then 1 else 0)
  }

  /** n copies of y. */
  function Rep(y: int, n: nat): seq<int>
    decreases n
  {
    if n == 0 then [] else Rep(y, n - 1) + [y]
  }

  /** What the loop appends to cdl_state_years[state] for one year. */
  function Appended(y: int, state: string, states: seq<string>): seq<int>
  {
    match YearStates(y, states)
    case None => []
    case Some(l) => Rep(y, Occ(l, state))
  }

  /** cdl_state_years[state] after the loop over years: one append per listing. */
  function StateYears(years: seq<int>, state: string, states: seq<string>): seq<int>
    decreases |years|
  {
    if |years| == 0 then []
    else StateYears(years[..|years| - 1], state, states) + Appended(years[|years| - 1], state, states)
  }

  lemma StateYearsStep(years: seq<int>, k: nat, state: string, states: seq<string>)
    requires k < |years|
    ensures StateYears(years[..k + 1], state, states)
      == StateYears(years[..k], state, states) + Appended(years[k], state, states)
  {
    assert years[..k + 1][..k] == years[..k];
  }

  lemma OccStep(l: seq<string>, j: nat, s: string)
    requires j < |l|
    ensures Occ(l[..j + 1], s) == Occ(l[..j], s) + (if l[j] == s then 1 else 0)
  {
    assert l[..j + 1][..j] == l[..j];
  }

  /** One listing more: its state, when known, gets the year appended once more. */
  lemma AppendStep(m0: map<string, seq<int>>, m: map<string, seq<int>>, year: int, list: seq<string>, j: nat)
    requires j < |list|
    requires m.Keys == m0.Keys
    requires forall s :: s in m ==> m[s] == m0[s] + Rep(year, Occ(list[..j], s))
    ensures var m1 := if list[j] in m then m[list[j] := m[list[j]] + [year]] else m;
      && m1.Keys == m0.Keys
      && forall s :: s in m1 ==> m1[s] == m0[s] + Rep(year, Occ(list[..j + 1], s))
  {
    var m1 := if list[j] in m then m[list[j] := m[list[j]] + [year]] else m;
    forall s | s in m1 ensures m1[s] == m0[s] + Rep(year, Occ(list[..j + 1], s)) {
      OccStep(list, j, s);
    }
  }

  /** The inner loop for one year: each listing of a state appends the year once more. */
  method AppendYear(m0: map<string, seq<int>>, year: int, list: seq<string>)
    returns (m: map<string, seq<int>>)
    ensures m.Keys == m0.Keys
    ensures forall s :: s in m ==> m[s] == m0[s] + Rep(year, Occ(list, s))
  {
    m := m0;
    var j := 0;
    while j < |list|
      invariant 0 <= j <= |list|
      invariant m.Keys == m0.Keys
      invariant forall s :: s in m ==> m[s] == m0[s] + Rep(year, Occ(list[..j], s))
    {
      AppendStep(m0, m, year, list, j);
      if list[j] in m {
        m := m[list[j] := m[list[j]] + [year]];
      }
      j := j + 1;
    }
    assert list[..j] == list;
  }

  /** The loop that fills cdl_state_years, appending each year to each listed state. */
  method BuildStateYears(states: seq<string>, years: seq<int>) returns (m: map<string, seq<int>>)
    ensures forall s :: s in m <==> s in states
    ensures forall s :: s in m ==> m[s] == StateYears(years, s, states)
  {
    m := map s | s in states :: [];
    var k := 0;
    while k < |years|
      invariant 0 <= k <= |years|
      invariant forall s :: s in m <==> s in states
      invariant forall s :: s in m ==> m[s] == StateYears(years[..k], s, states)
    {
      var year := years[k];
      var listed := YearStates(year, states);
      if listed.Some? {
        m := AppendYear(m, year, listed.value);
      }
      forall s | s in m { StateYearsStep(years, k, s, states); }
      k := k + 1;
    }
    assert years[..k] == years;
  }

  lemma {:induction false} OccPositive(l: seq<string>, s: string)
    ensures Occ(l, s) > 0 <==> s in l
    decreases |l|
  {
    if |l| > 0 {
      OccPositive(l[..|l| - 1], s);
      assert l == l[..|l| - 1] + [l[|l| - 1]];
    }
  }

  lemma {:induction false} RepMembers(y: int, n: nat)
    ensures forall z :: z in Rep(y, n) <==> z == y && n > 0
    decreases n
  {
    if n > 0 { RepMembers(y, n - 1); }
  }

  /** A state's year list holds exactly the requested years whose table lists the state. */
  lemma {:induction false} StateYearsMembers(years: seq<int>, state: string, states: seq<string>)
    ensures forall y :: y in StateYears(years, state, states) <==>
      y in years && Listed(y, state, states)
    decreases |years|
  {
    if |years| > 0 {
      var init := years[..|years| - 1];
      var y := years[|years| - 1];
      StateYearsMembers(init, state, states);
      assert years == init + [y];
      match YearStates(y, states) {
        case None =>
        case Some(l) =>
          OccPositive(l, state);
          RepMembers(y, Occ(l, state));
      }
    }
  }

  predicate NonDecreasing(s: seq<int>) {
    forall i, j :: 0 <= i < j < |s| ==> s[i] <= s[j]
  }

  /** Years taken in increasing order give each state a non-decreasing year list. */
  lemma {:induction false} StateYearsOrdered(years: seq<int>, state: string, states: seq<string>)
    requires Increasing(years)
    ensures NonDecreasing(StateYears(years, state, states))
    decreases |years|
  {
    if |years| > 0 {
      var init := years[..|years| - 1];
      var y := years[|years| - 1];
      StateYearsOrdered(init, state, states);
      StateYearsMembers(init, state, states);
      var head := StateYears(init, state, states);
      var tail := match YearStates(y, states) case None => [] case Some(l) => Rep(y, Occ(l, state));
      assert forall z :: z in tail ==> z == y by {
        match YearStates(y, states) {
          case None =>
          case Some(l) => RepMembers(y, Occ(l, state));
        }
      }
      forall i | 0 <= i < |head| ensures head[i] < y {
        assert head[i] in head;
        var k :| 0 <= k < |init| && init[k] == head[i];
        assert years[k] == init[k];
      }
      var r := head + tail;
      forall i, j | 0 <= i < j < |r| ensures r[i] <= r[j] {
        if j >= |head| {
          assert r[j] in tail;
          if i >= |head| { assert r[i] in tail; }
        }
      }
    }
  }

  /** From 2008 on every requested state is listed; before 2008 only the fixed lists. */
  lemma ListedFrom2008(year: int, state: string, states: seq<string>)
    requires 2008 <= year <= 2024
    ensures Listed(year, state, states) <==> state in states
  {
  }
}
