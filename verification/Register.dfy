/** The handler register: the array operations as functions on the sequence of slots, and
    their relation to a finite map from instance ids to class instances. */
module Register {
  import opened Bytes
  import opened Protocol
  import opened Router

  function NewSlot(id: byte, target: nat): Slot {
    Slot(id, target, false, EMPTY, 0, 0)
  }

  /** `registerHandler` on an id that is free. */
  function Add(slots: seq<Slot>, id: byte, target: nat): seq<Slot> {
    slots + [NewSlot(id, target)]
  }

  /** The register without `id`, the order of the rest kept: what the comment in
      `unregisterHandler` asks for. */
  function Remove(slots: seq<Slot>, id: byte): (r: seq<Slot>) {
    var i := Find(slots, id);
    if i == |slots| then slots else slots[..i] + slots[i + 1..]
  }

  /** The register the loop in `unregisterHandler` leaves. It advances the outer index and
      holds the inner one, so unless the id is last the found slot is copied over its
      predecessor, again and again, and the last slot is cut off. */
  function AfterUnregister(slots: seq<Slot>, id: byte): (r: seq<Slot>)
    requires UnregisterInBounds(slots, id)
  {
    var i := Find(slots, id);
    if i == |slots| then slots
    else if i == |slots| - 1 then slots[..i]
    else slots[i - 1 := slots[i]][..|slots| - 1]
  }

  /** With the found slot first and more behind it the loop writes before the array. */
  predicate UnregisterInBounds(slots: seq<Slot>, id: byte) {
    Find(slots, id) == 0 ==> |slots| <= 1
  }

  /** Slot by slot: nothing changes if the id is not there; otherwise there is one slot less, the
      slot before the found one (unless that was last) is a copy of it, and the others stay. */
  lemma UnregisterExactly(slots: seq<Slot>, id: byte, i: nat)
    requires ValidSlots(slots) && UnregisterInBounds(slots, id) && i < |slots| && slots[i].id == id
    ensures var r := AfterUnregister(slots, id);
            && |r| == |slots| - 1
            && forall k | 0 <= k < |r| :: r[k] == slots[if k == i - 1 && i < |slots| - 1 then i else k]
  {
    FindUnique(slots, i);
  }

  /** The slot of which the coded removal leaves a copy at `k`. */
  lemma ComesFrom(slots: seq<Slot>, id: byte, k: nat) returns (from: nat)
    requires UnregisterInBounds(slots, id) && k < |AfterUnregister(slots, id)|
    ensures from < |slots| && AfterUnregister(slots, id)[k] == slots[from]
  {
    var i := Find(slots, id);
    from := if i < |slots| - 1 && k == i - 1 then i else k;
  }

  // ---------- the register as a map ----------

  /** Looking an id up in the register and in the map gives the same answer. */
  ghost predicate Represents(slots: seq<Slot>, m: map<byte, nat>) {
    forall id :: Agree(slots, m, id)
  }

  predicate Agree(slots: seq<Slot>, m: map<byte, nat>, id: byte) {
    if Registered(slots, id) then id in m && m[id] == slots[Find(slots, id)].target else id !in m
  }

  lemma AddLookup(slots: seq<Slot>, id: byte, target: nat, x: byte)
    requires ValidSlots(slots) && !Registered(slots, id)
    ensures var r := Add(slots, id, target);
            && ValidSlots(r)
            && Registered(r, id) && r[Find(r, id)] == NewSlot(id, target)
            && (x != id ==> (Registered(r, x) <==> Registered(slots, x)))
            && (x != id && Registered(slots, x) ==> r[Find(r, x)] == slots[Find(slots, x)])
  {
    var r := Add(slots, id, target);
    assert r[|slots|] == NewSlot(id, target);
    FindUnique(r, |slots|);
    if Registered(slots, x) {
      assert r[Find(slots, x)] == slots[Find(slots, x)];
      FindUnique(r, Find(slots, x));
    }
  }

  lemma RemoveLookup(slots: seq<Slot>, id: byte, x: byte)
    requires ValidSlots(slots)
    ensures var r := Remove(slots, id);
            && ValidSlots(r)
            && (Registered(r, x) <==> Registered(slots, x) && x != id)
            && (Registered(r, x) ==> r[Find(r, x)] == slots[Find(slots, x)])
  {
    var r, i, k := Remove(slots, id), Find(slots, id), Find(slots, x);
    RemoveValid(slots, id);
    if i < |slots| {
      if Registered(slots, x) && x != id {
        var at := if k < i then k else k - 1;
        assert r[at] == slots[k];
        FindUnique(r, at);
      }
      if Registered(r, x) {
        var f := Find(r, x);
        var from := if f < i then f else f + 1;
        assert slots[from] == r[f];
        FindUnique(slots, from);
      }
    }
  }

  lemma RemoveShrinks(slots: seq<Slot>, id: byte)
    ensures var r := Remove(slots, id);
            && |r| <= |slots| <= |r| + 1
            && forall k | 0 <= k < |r| :: r[k] == slots[if k < Find(slots, id) then k else k + 1]
  {
    hide Find;
    var r, i := Remove(slots, id), Find(slots, id);
    forall k | 0 <= k < |r|
      ensures r[k] == slots[if k < i then k else k + 1]
    {
    }
  }

  lemma RemoveDistinct(slots: seq<Slot>, id: byte)
    requires Distinct(slots)
    ensures Distinct(Remove(slots, id))
  {
    RemoveShrinks(slots, id);
  }

  lemma RemoveValid(slots: seq<Slot>, id: byte)
    requires ValidSlots(slots)
    ensures ValidSlots(Remove(slots, id))
  {
    RemoveShrinks(slots, id);
    RemoveDistinct(slots, id);
  }

  lemma AddIsUpdate(slots: seq<Slot>, m: map<byte, nat>, id: byte, target: nat)
    requires ValidSlots(slots) && Represents(slots, m) && !Registered(slots, id)
    ensures ValidSlots(Add(slots, id, target)) && Represents(Add(slots, id, target), m[id := target])
  {
    AddLookup(slots, id, target, id);
    var r, updated := Add(slots, id, target), m[id := target];
    forall x
      ensures Agree(r, updated, x)
    {
      AddLookup(slots, id, target, x);
      assert Agree(slots, m, x);
    }
  }

  lemma RemoveIsErase(slots: seq<Slot>, m: map<byte, nat>, id: byte)
    requires ValidSlots(slots) && Represents(slots, m)
    ensures ValidSlots(Remove(slots, id)) && Represents(Remove(slots, id), m - {id})
  {
    var r, erased := Remove(slots, id), m - {id};
    forall x
      ensures Agree(r, erased, x)
    {
      RemoveLookup(slots, id, x);
      assert Agree(slots, m, x);
    }
    RemoveLookup(slots, id, id);
  }

  /** The code removes exactly the given id when, and only when, it is absent or registered
      last. */
  lemma UnregisterRemovesIff(slots: seq<Slot>, id: byte)
    requires ValidSlots(slots) && UnregisterInBounds(slots, id)
    ensures AfterUnregister(slots, id) == Remove(slots, id)
       <==> !Registered(slots, id) || slots[|slots| - 1].id == id
  {
    var i := Find(slots, id);
    if i < |slots| {
      if slots[|slots| - 1].id == id {
        FindUnique(slots, |slots| - 1);
        assert slots[i + 1..] == [];
      } else {
        assert AfterUnregister(slots, id)[i - 1] == slots[i];
        assert Remove(slots, id)[i - 1] == slots[i - 1];
        assert slots[i - 1].id != slots[i].id;
      }
    }
  }

  /** Otherwise the id stays, and its predecessor and (when it is another) the last handler
      are gone. */
  lemma UnregisterLosesOthers(slots: seq<Slot>, id: byte)
    requires ValidSlots(slots) && UnregisterInBounds(slots, id)
    requires Registered(slots, id) && slots[|slots| - 1].id != id
    ensures var r, i := AfterUnregister(slots, id), Find(slots, id);
            && Registered(r, id)
            && !Registered(r, slots[i - 1].id)
            && !Registered(r, slots[|slots| - 1].id)
  {
    var r, i := AfterUnregister(slots, id), Find(slots, id);
    assert r[i - 1].id == id;
    forall k | 0 <= k < |r|
      ensures r[k].id != slots[i - 1].id && r[k].id != slots[|slots| - 1].id
    {
    }
    assert Find(r, id) <= i - 1;
  }

  /** Three handlers, the middle one unregistered: it stays and the other two are lost. */
  lemma UnregisterMiddleOfThree()
    ensures var s := [NewSlot(5, 1), NewSlot(7, 2), NewSlot(2, 3)];
            && ValidSlots(s) && UnregisterInBounds(s, 7)
            && AfterUnregister(s, 7) == [NewSlot(7, 2), NewSlot(7, 2)]
            && Remove(s, 7) == [NewSlot(5, 1), NewSlot(2, 3)]
  {
    var s := [NewSlot(5, 1), NewSlot(7, 2), NewSlot(2, 3)];
    FindUnique(s, 1);
  }

  // ---------- runs of register operations ----------

  datatype Op = Reg(id: byte, target: nat) | Unreg(id: byte)

  function Apply(slots: seq<Slot>, op: Op): seq<Slot> {
    match op
    case Reg(id, target) => if Registered(slots, id) then slots else Add(slots, id, target)
    case Unreg(id) => Remove(slots, id)
  }

  function ApplyAll(ops: seq<Op>): seq<Slot> {
    if ops == [] then [] else Apply(ApplyAll(ops[..|ops| - 1]), ops[|ops| - 1])
  }

  /** The simple form: a finite map, in which the first registration of an id stands. */
  function MapAfter(ops: seq<Op>): map<byte, nat> {
    if ops == [] then map[]
    else
      var m := MapAfter(ops[..|ops| - 1]);
      match ops[|ops| - 1]
      case Reg(id, target) => if id in m then m else m[id := target]
      case Unreg(id) => m - {id}
  }

  lemma {:induction false} RegisterRefinesMap(ops: seq<Op>)
    ensures ValidSlots(ApplyAll(ops))
    ensures Represents(ApplyAll(ops), MapAfter(ops))
  {
    if ops != [] {
      var before, m, op := ApplyAll(ops[..|ops| - 1]), MapAfter(ops[..|ops| - 1]), ops[|ops| - 1];
      RegisterRefinesMap(ops[..|ops| - 1]);
      match op {
        case Reg(id, target) =>
          assert Agree(before, m, id);
          if !Registered(before, id) {
            AddIsUpdate(before, m, id, target);
          }
        case Unreg(id) =>
          RemoveIsErase(before, m, id);
      }
    }
  }

  /** The register after the operations as coded; `None` once a write left the array. */
  function CodedRun(ops: seq<Op>): Option<seq<Slot>> {
    if ops == [] then Some([])
    else
      match CodedRun(ops[..|ops| - 1])
      case None => None
      case Some(s) =>
        match ops[|ops| - 1]
        case Reg(_, _) => Some(Apply(s, ops[|ops| - 1]))
        case Unreg(id) => if UnregisterInBounds(s, id) then Some(AfterUnregister(s, id)) else None
  }

  /** At every step looking up ids in the coded register and in the map gives the same. */
  ghost predicate AgreesThroughout(ops: seq<Op>) {
    ops == [] || (AgreesThroughout(ops[..|ops| - 1])
                  && CodedRun(ops).Some? && Represents(CodedRun(ops).value, MapAfter(ops)))
  }

  /** Each unregistered id is absent or was registered last. */
  predicate OnlyLastRemoved(ops: seq<Op>) {
    ops == [] ||
    (&& OnlyLastRemoved(ops[..|ops| - 1])
     && (ops[|ops| - 1].Unreg? ==>
           var s, id := ApplyAll(ops[..|ops| - 1]), ops[|ops| - 1].id;
           !Registered(s, id) || s[|s| - 1].id == id))
  }

  lemma UnregisterAgreesIff(s: seq<Slot>, id: byte)
    requires ValidSlots(s)
    ensures !Registered(s, id) || s[|s| - 1].id == id
       <==> UnregisterInBounds(s, id) && AfterUnregister(s, id) == Remove(s, id)
  {
    if s != [] && s[|s| - 1].id == id {
      FindUnique(s, |s| - 1);
    }
    if UnregisterInBounds(s, id) {
      UnregisterRemovesIff(s, id);
    }
  }

  /** One coded step from a register that stands for the map. */
  lemma CodedStepAgreesIff(s: seq<Slot>, m: map<byte, nat>, id: byte)
    requires ValidSlots(s) && Represents(s, m)
    ensures !Registered(s, id) || s[|s| - 1].id == id
       <==> UnregisterInBounds(s, id) && Represents(AfterUnregister(s, id), m - {id})
  {
    UnregisterAgreesIff(s, id);
    RemoveIsErase(s, m, id);
    if UnregisterInBounds(s, id) && Registered(s, id) && s[|s| - 1].id != id {
      UnregisterLosesOthers(s, id);
      assert !Agree(AfterUnregister(s, id), m - {id}, id);
    }
  }

  /** The coded operations agree with the map over a whole run exactly when the run only
      ever unregisters the last handler. */
  lemma {:induction false} CodedRegisterRefinesMapIff(ops: seq<Op>)
    ensures AgreesThroughout(ops) <==> OnlyLastRemoved(ops)
    ensures OnlyLastRemoved(ops) ==> CodedRun(ops) == Some(ApplyAll(ops))
  {
    hide Represents, UnregisterInBounds;
    RegisterRefinesMap(ops);
    if ops != [] {
      var before := ops[..|ops| - 1];
      CodedRegisterRefinesMapIff(before);
      RegisterRefinesMap(before);
      if OnlyLastRemoved(before) && ops[|ops| - 1].Unreg? {
        CodedStepAgreesIff(ApplyAll(before), MapAfter(before), ops[|ops| - 1].id);
        UnregisterAgreesIff(ApplyAll(before), ops[|ops| - 1].id);
      }
    }
  }

  // ---------- how many slots are needed ----------

  lemma {:induction false} Pigeonhole(slots: seq<Slot>, bound: nat)
    requires Distinct(slots) && bound <= 0x100
    requires forall i | 0 <= i < |slots| :: (slots[i].id as int) < bound
    ensures |slots| <= bound
    decreases bound
  {
    assert slots == [] || (slots[0].id as int) < bound;
    if bound > 0 {
      var top := (bound - 1) as byte;
      var rest := Remove(slots, top);
      RemoveShrinks(slots, top);
      RemoveDistinct(slots, top);
      forall i | 0 <= i < |rest|
        ensures (rest[i].id as int) < bound - 1
      {
        var from := if i < Find(slots, top) then i else i + 1;
        assert rest[i] == slots[from];
        FindUnique(slots, from);
      }
      Pigeonhole(rest, bound - 1);
    }
  }

  ghost predicate OnlyNamedIds(ops: seq<Op>) {
    forall k | 0 <= k < |ops| && ops[k].Reg? :: 0 < ops[k].id <= 7
  }

  predicate Named(slots: seq<Slot>) {
    forall i | 0 <= i < |slots| :: 0 < slots[i].id <= 7
  }

  lemma NamedStep(slots: seq<Slot>, op: Op)
    requires Named(slots) && (op.Reg? ==> 0 < op.id <= 7)
    ensures Named(Apply(slots, op))
  {
    if op.Unreg? {
      RemoveShrinks(slots, op.id);
    }
  }

  lemma NamedPrefix(ops: seq<Op>)
    requires OnlyNamedIds(ops) && ops != []
    ensures OnlyNamedIds(ops[..|ops| - 1])
  {
    var init := ops[..|ops| - 1];
    assert forall k | 0 <= k < |init| :: init[k] == ops[k];
  }

  lemma {:induction false} NamedIdsStay(ops: seq<Op>)
    requires OnlyNamedIds(ops)
    ensures Named(ApplyAll(ops))
  {
    if ops != [] {
      NamedPrefix(ops);
      NamedIdsStay(ops[..|ops| - 1]);
      NamedStep(ApplyAll(ops[..|ops| - 1]), ops[|ops| - 1]);
    }
  }

  /** Distinct named ids fit the array. */
  lemma NamedFits(s: seq<Slot>)
    requires Distinct(s) && Named(s)
    ensures |s| <= 7
  {
    var all := s + [NewSlot(ID_UNKNOWN, 0)];
    assert Distinct(all);
    Pigeonhole(all, 8);
  }

  /** With the removal the comment describes, and while `UNKNOWN` is never registered, no
      sequence of operations writes behind the array, although `registerHandler` does not
      check: a new id always finds a free slot. */
  lemma SevenSlotsSuffice(ops: seq<Op>)
    requires OnlyNamedIds(ops)
    ensures |ApplyAll(ops)| <= 7
  {
    RegisterRefinesMap(ops);
    NamedIdsStay(ops);
    NamedFits(ApplyAll(ops));
  }

  /** As coded it does so while only the last handler is ever unregistered. */
  lemma CodedSevenSlotsSuffice(ops: seq<Op>)
    requires OnlyNamedIds(ops) && OnlyLastRemoved(ops)
    ensures CodedRun(ops).Some? && |CodedRun(ops).value| <= 7
  {
    CodedRegisterRefinesMapIff(ops);
    SevenSlotsSuffice(ops);
  }

  /** Register the ids 1 to `n`. */
  function RegisterAll(n: nat): (ops: seq<Op>)
    requires n < 0x100
    ensures |ops| == n
  {
    if n == 0 then [] else RegisterAll(n - 1) + [Reg(n as byte, 0)]
  }

  /** The register `s` with those of the ids 1 to `n` added that are not in it. */
  function FillUp(s: seq<Slot>, n: nat): seq<Slot>
    requires n < 0x100
  {
    if n == 0 then s else Apply(FillUp(s, n - 1), Reg(n as byte, 0))
  }

  lemma CodedSnoc(ops: seq<Op>, op: Op)
    requires CodedRun(ops).Some? && op.Reg?
    ensures CodedRun(ops + [op]) == Some(Apply(CodedRun(ops).value, op))
  {
    hide Apply, UnregisterInBounds, AfterUnregister;
    assert (ops + [op])[..|ops|] == ops;
  }

  lemma {:induction false} RegisterAllFillsUp(ops: seq<Op>, n: nat)
    requires CodedRun(ops).Some? && n < 0x100
    ensures CodedRun(ops + RegisterAll(n)) == Some(FillUp(CodedRun(ops).value, n))
  {
    hide Apply, UnregisterInBounds, AfterUnregister;
    if n == 0 {
      assert ops + [] == ops;
    } else {
      var before, op := ops + RegisterAll(n - 1), Reg(n as byte, 0);
      RegisterAllFillsUp(ops, n - 1);
      CodedSnoc(before, op);
      assert ops + RegisterAll(n) == before + [op];
    }
  }

  /** Each of the ids 1 to `n` is registered. */
  predicate HasAll(slots: seq<Slot>, n: nat) {
    forall id: byte | 0 < id as int <= n :: Registered(slots, id)
  }

  lemma {:induction false} FillUpKeeps(s: seq<Slot>, n: nat)
    requires n < 0x100
    ensures |s| <= |FillUp(s, n)| && forall i | 0 <= i < |s| :: FillUp(s, n)[i] == s[i]
    ensures HasAll(FillUp(s, n), n)
  {
    if n > 0 {
      var before, r := FillUp(s, n - 1), FillUp(s, n);
      FillUpKeeps(s, n - 1);
      forall id: byte | 0 < id as int <= n
        ensures Registered(r, id)
      {
        var at := if Registered(before, id) then Find(before, id) else |before|;
        assert r[at].id == id;
      }
    }
  }

  lemma {:induction false} FillUpStays(s: seq<Slot>, n: nat)
    requires n <= 7 && Named(s) && Distinct(s)
    ensures Named(FillUp(s, n)) && Distinct(FillUp(s, n))
  {
    if n > 0 {
      FillUpStays(s, n - 1);
      NamedStep(FillUp(s, n - 1), Reg(n as byte, 0));
    }
  }

  /** A register that holds all the ids 1 to `n` has at least `n` slots. */
  lemma {:induction false} Cover(slots: seq<Slot>, n: nat)
    requires n < 0x100 && HasAll(slots, n)
    ensures |slots| >= n
  {
    if n > 0 {
      var top := n as byte;
      assert Registered(slots, top);
      RemoveShrinks(slots, top);
      forall id: byte | 0 < id as int <= n - 1
        ensures Registered(Remove(slots, top), id)
      {
        assert Registered(slots, id);
        OthersStay(slots, Find(slots, top), Find(slots, id));
      }
      Cover(Remove(slots, top), n - 1);
    }
  }

  /** Cutting out one slot loses no id that some other slot has. */
  lemma OthersStay(slots: seq<Slot>, cut: nat, k: nat)
    requires cut < |slots| && k < |slots| && k != cut
    ensures Registered(slots[..cut] + slots[cut + 1..], slots[k].id)
  {
    var rest := slots[..cut] + slots[cut + 1..];
    var at := if k < cut then k else k - 1;
    assert rest[at] == slots[k];
    assert Find(rest, slots[k].id) <= at;
  }

  /** A register that holds the ids 1 to `n` and one id twice has more than `n` slots. */
  lemma CoverWithTwin(slots: seq<Slot>, i: nat, j: nat, n: nat)
    requires i < j < |slots| && slots[i].id == slots[j].id && n < 0x100 && HasAll(slots, n)
    ensures |slots| > n
  {
    var rest := slots[..j] + slots[j + 1..];
    forall id: byte | 0 < id as int <= n
      ensures Registered(rest, id)
    {
      assert Registered(slots, id);
      var at := Find(slots, id);
      OthersStay(slots, j, if at == j then i else at);
    }
    Cover(rest, n);
  }

  lemma CodedStep(s: seq<Slot>, id: byte)
    requires Named(s) && UnregisterInBounds(s, id)
    ensures Named(AfterUnregister(s, id))
  {
  }

  lemma {:induction false} CodedNamedIdsStay(ops: seq<Op>)
    requires OnlyNamedIds(ops) && CodedRun(ops).Some?
    ensures Named(CodedRun(ops).value)
  {
    if ops != [] {
      var s, op := CodedRun(ops[..|ops| - 1]).value, ops[|ops| - 1];
      NamedPrefix(ops);
      CodedNamedIdsStay(ops[..|ops| - 1]);
      if op.Unreg? {
        CodedStep(s, op.id);
      } else {
        NamedStep(s, op);
      }
    }
  }

  /** After any run of the coded operations with named ids, whether the ids that are missing
      find room depends on one thing: registering all seven ids stays within the array
      exactly when no id is in the register twice. */
  lemma CodedRefillFitsIff(ops: seq<Op>)
    requires OnlyNamedIds(ops) && CodedRun(ops).Some?
    ensures var refilled := CodedRun(ops + RegisterAll(7));
            && refilled.Some?
            && (|refilled.value| <= 7 <==> Distinct(CodedRun(ops).value))
  {
    var s, n := CodedRun(ops).value, 7;
    var full := FillUp(s, n);
    RegisterAllFillsUp(ops, n);
    CodedNamedIdsStay(ops);
    FillUpKeeps(s, n);
    if Distinct(s) {
      FillUpStays(s, n);
      NamedFits(full);
    } else {
      var i, j :| 0 <= i < j < |s| && s[i].id == s[j].id;
      assert full[i] == s[i] && full[j] == s[j];
      CoverWithTwin(full, i, j, n);
    }
  }

  /** Such a run: seven handlers, the second unregistered (it takes the place of the first, the
      last is cut off), all seven registered again. The eighth slot is behind the array. */
  lemma CodedRunOverflows()
    ensures var ops := RegisterAll(7) + [Unreg(2)] + RegisterAll(7);
            && OnlyNamedIds(ops) && CodedRun(ops).Some? && |CodedRun(ops).value| > 7
  {
    var n := 7;
    RegisterAllNamed(n);
    SecondUnregistered(n);
    CodedRefillFitsIff(RegisterAll(n) + [Unreg(2)]);
  }

  lemma FindUniqueSecond(s: seq<Slot>)
    requires |s| >= 2 && s[0].id != s[1].id
    ensures Find(s, s[1].id) == 1
  {
    assert s[1..][0] == s[1];
  }

  lemma SecondUnregistered(n: nat)
    requires 2 < n <= 7
    ensures var r := CodedRun(RegisterAll(n) + [Unreg(2)]);
            r.Some? && |r.value| == n - 1 && r.value[0].id == r.value[1].id
  {
    hide FillUp, RegisterAll;
    var all, before, full := RegisterAll(n), RegisterAll(n) + [Unreg(2)], FillUp([], n);
    RegisterAllFillsUp([], n);
    assert [] + all == all;
    FillUpEmpty(n);
    assert full[0].id == 1 && full[1].id == 2;
    FindUniqueSecond(full);
    assert before[..|before| - 1] == all;
  }

  lemma {:induction false} FillUpEmpty(n: nat)
    requires n < 0x100
    ensures |FillUp([], n)| == n && forall i | 0 <= i < n :: FillUp([], n)[i].id as int == i + 1
  {
    if n > 0 {
      FillUpEmpty(n - 1);
    }
  }

  lemma {:induction false} RegisterAllNamed(n: nat)
    requires n <= 7
    ensures OnlyNamedIds(RegisterAll(n))
  {
    if n > 0 {
      RegisterAllNamed(n - 1);
    }
  }

  function FirstIds(n: nat): (ops: seq<Op>)
    requires n <= 0x100
    ensures |ops| == n
  {
    if n == 0 then [] else FirstIds(n - 1) + [Reg((n - 1) as byte, 0)]
  }

  /** Registering the first `n` ids takes `n` slots; all eight enumerators, `UNKNOWN`
      included, take one more than there are. */
  lemma {:induction false} FirstIdsFill(n: nat)
    requires n <= 0x100
    ensures |ApplyAll(FirstIds(n))| == n
    ensures forall i | 0 <= i < n :: ApplyAll(FirstIds(n))[i].id as int == i
  {
    if n > 0 {
      FirstIdsFill(n - 1);
      assert FirstIds(n)[..n - 1] == FirstIds(n - 1);
    }
  }

  lemma EightIdsOverflow()
    ensures |ApplyAll(FirstIds(8))| > 7
  {
    FirstIdsFill(8);
  }
}
