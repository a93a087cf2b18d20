/** A place that holds one value: what is set replaces what was there, what is taken leaves
    it empty. Both the pending request of a handler and its mailbox are such places. */
module OneSlot {
  import opened Bytes

  datatype Mark<+T> = Set(value: T) | Clear | Take

  /** The value in the place after these marks. */
  function Pending<T>(m: seq<Mark<T>>): Option<T> {
    if m != [] && m[|m| - 1].Set? then Some(m[|m| - 1].value) else None
  }

  function Sets<T>(m: seq<Mark<T>>): seq<T> {
    if m == [] then []
    else Sets(m[..|m| - 1]) + if m[|m| - 1].Set? then [m[|m| - 1].value] else []
  }

  /** The values that were taken, in order. */
  function Taken<T>(m: seq<Mark<T>>): seq<T> {
    if m == [] then []
    else
      var before := m[..|m| - 1];
      Taken(before) + if m[|m| - 1].Take? && Pending(before).Some? then [Pending(before).value] else []
  }

  /** How many values were set but replaced or cleared before anything took them. */
  function Superseded<T>(m: seq<Mark<T>>): nat {
    if m == [] then 0
    else
      var before := m[..|m| - 1];
      Superseded(before) + if !m[|m| - 1].Take? && Pending(before).Some? then 1 else 0
  }

  function Held<T>(m: seq<Mark<T>>): seq<T> {
    match Pending(m)
    case None => []
    case Some(v) => [v]
  }

  /** Conservation: every value set is taken, superseded or still held. */
  lemma {:induction false} Conservation<T>(m: seq<Mark<T>>)
    ensures |Sets(m)| == |Taken(m)| + Superseded(m) + |Held(m)|
  {
    if m != [] {
      Conservation(m[..|m| - 1]);
    }
  }

  lemma {:induction false} HeldIsNewest<T>(m: seq<Mark<T>>)
    ensures Pending(m).Some? ==> Sets(m) != [] && Sets(m)[|Sets(m)| - 1] == Pending(m).value
  {
  }

  /** What was taken, followed by what is held, is what was set with some values left out. */
  lemma {:induction false} TakenInOrder<T>(m: seq<Mark<T>>)
    ensures Subsequence(Taken(m) + Held(m), Sets(m))
  {
    if m != [] {
      var before, last := m[..|m| - 1], m[|m| - 1];
      TakenInOrder(before);
      DropHeld(Taken(before), Held(before), Sets(before));
      if last.Set? {
        SubsequenceSnoc(Taken(before), Sets(before), last.value);
        assert Taken(m) + Held(m) == Taken(before) + [last.value];
      } else {
        assert Held(m) == [];
        assert Taken(m) + [] == Taken(m);
        assert Taken(m) == Taken(before) || Taken(m) == Taken(before) + Held(before);
        assert Sets(m) == Sets(before);
      }
    }
  }

  lemma DropHeld<T>(a: seq<T>, held: seq<T>, b: seq<T>)
    requires |held| <= 1 && Subsequence(a + held, b)
    ensures Subsequence(a, b)
  {
    if held == [] {
      assert a + held == a;
    } else {
      assert held == [held[0]];
      SubsequenceDropLast(a, held[0], b);
    }
  }

  /** Where nothing is ever cleared, an empty place means that the last value set was the
      last one taken. */
  lemma {:induction false} NothingHeldMeansTaken<T>(m: seq<Mark<T>>)
    requires Clear !in m && Pending(m) == None && Sets(m) != []
    ensures Taken(m) != [] && Taken(m)[|Taken(m)| - 1] == Sets(m)[|Sets(m)| - 1]
  {
    var before := m[..|m| - 1];
    assert m[|m| - 1] in m;
    if Pending(before) == None {
      NothingHeldMeansTaken(before);
    }
  }

  /** The account of a place that is only ever set and taken: what was taken and what is
      pending is what was set with some values left out, in order and fully counted; what is
      pending is the newest value, and once nothing is, the newest value was the last taken. */
  ghost predicate Accounted<T>(m: seq<Mark<T>>, taken: seq<T>, pending: Option<T>) {
    var held, sets := if pending.Some? then [pending.value] else [], Sets(m);
    && |sets| == |taken| + Superseded(m) + |held|
    && Subsequence(taken + held, sets)
    && (pending.Some? ==> sets != [] && pending.value == sets[|sets| - 1])
    && (pending == None && sets != [] ==> taken != [] && taken[|taken| - 1] == sets[|sets| - 1])
  }

  lemma Account<T>(m: seq<Mark<T>>)
    requires Clear !in m
    ensures Accounted(m, Taken(m), Pending(m))
  {
    Conservation(m);
    TakenInOrder(m);
    HeldIsNewest(m);
    if Pending(m) == None && Sets(m) != [] {
      NothingHeldMeansTaken(m);
    }
  }
}
