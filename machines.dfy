/** The machine: a catalogue of rotors, the slots filled from it, an optional
    plugboard, the stepping rule and the signal path.  The rotors live in the
    catalogue array and the slots hold catalogue indices, so a rotor keeps its
    setting between uses, as the shared rotor objects of the source do. */
module Machines {
  import opened Results
  import opened Alphabets
  import opened Permutations
  import opened Rotors
  import Seqs

  // ---------------------------------------------------------------------
  // Rotors that belong to one machine
  // ---------------------------------------------------------------------

  /** A rotor over the machine's alphabet, with its setting in range. */
  predicate Fits(r: Rotor, alphabet: Alphabet) {
    r.perm.alphabet == alphabet && r.Valid()
  }

  /** Every rotor of `rs` fits the alphabet. */
  predicate AllFit(rs: seq<Rotor>, alphabet: Alphabet) {
    forall i | 0 <= i < |rs| :: Fits(rs[i], alphabet)
  }

  /** The plugboard, when there is one, permutes the machine's alphabet. */
  predicate PlugboardFits(plugboard: Option<Permutation>, alphabet: Alphabet) {
    plugboard.Some? ==> plugboard.value.alphabet == alphabet && plugboard.value.Valid()
  }

  /** Every slot names a catalogue entry. */
  predicate InCatalogue(slots: seq<nat>, size: int) {
    forall i | 0 <= i < |slots| :: slots[i] < size
  }

  /** The rotors in the slots, leftmost (the reflector) first. */
  function Active(cat: seq<Rotor>, slots: seq<nat>): (rs: seq<Rotor>)
    requires InCatalogue(slots, |cat|)
    ensures |rs| == |slots|
    ensures forall i | 0 <= i < |slots| :: rs[i] == cat[slots[i]]
  {
    seq(|slots|, i requires 0 <= i < |slots| => cat[slots[i]])
  }

  /** The same rotor, possibly at another setting. */
  predicate SameRotor(t: Rotor, r: Rotor) {
    t.name == r.name && t.kind == r.kind && t.perm == r.perm
  }

  /** The same rotors in the same order, possibly at other settings. */
  predicate SameRotors(ts: seq<Rotor>, rs: seq<Rotor>) {
    |ts| == |rs| && forall i | 0 <= i < |rs| :: SameRotor(ts[i], rs[i])
  }

  // ---------------------------------------------------------------------
  // Choosing rotors: getRotor and insertRotors
  // ---------------------------------------------------------------------

  /** The catalogue index of the first rotor at or after `k` named `name`;
      fails when there is none. */
  function FirstNamedFrom(cat: seq<Rotor>, name: string, k: nat): (r: Result<nat>)
    requires k <= |cat|
    ensures r.Ok? ==> k <= r.value < |cat| && cat[r.value].name == name &&
                      forall j | k <= j < r.value :: cat[j].name != name
    ensures r.Err? ==> r.error == UnknownRotor(name) && forall j | k <= j < |cat| :: cat[j].name != name
    decreases |cat| - k
  {
    if k == |cat| then Err(UnknownRotor(name))
    else if cat[k].name == name then Ok(k)
    else FirstNamedFrom(cat, name, k + 1)
  }

  /** The catalogue index of the first rotor named `name`; fails when no
      rotor has that name. */
  function FirstNamed(cat: seq<Rotor>, name: string): (r: Result<nat>)
    ensures r.Ok? ==> r.value < |cat| && cat[r.value].name == name &&
                      forall j | 0 <= j < r.value :: cat[j].name != name
    ensures r.Err? ==> r.error == UnknownRotor(name) && forall j | 0 <= j < |cat| :: cat[j].name != name
  {
    FirstNamedFrom(cat, name, 0)
  }

  /** One round of insertRotors: the rotor named `name` for slot `i`, given
      the slots already filled.  The checks come in the source's order:
      unknown name, rotor already selected, slot 0 not a reflector. */
  function Admit(cat: seq<Rotor>, filled: seq<nat>, i: int, name: string): Result<nat> {
    match FirstNamed(cat, name)
    case Err(e) => Err(e)
    case Ok(k) =>
      if k in filled then Err(DuplicateRotor(name))
      else if i == 0 && !cat[k].Reflecting() then Err(FirstNotReflector)
      else Ok(k)
  }

  /** The slots insertRotors leaves behind and its outcome. */
  datatype Selection = Selection(slots: seq<nat>, outcome: Outcome)

  /** insertRotors(names) from cleared slots: rotors are admitted left to
      right, and the first refusal stops the scan with the slots filled so
      far. */
  function Select(cat: seq<Rotor>, names: seq<string>): (s: Selection)
    ensures |s.slots| <= |names|
    decreases |names|
  {
    if |names| == 0 then Selection([], Pass)
    else
      var before := Select(cat, names[..|names| - 1]);
      if before.outcome.Fail? then before
      else
        match Admit(cat, before.slots, |names| - 1, names[|names| - 1])
        case Err(e) => Selection(before.slots, Fail(e))
        case Ok(k) => Selection(before.slots + [k], Pass)
  }

  /** One more name, while the scan passes: it is admitted and appended,
      or refused with Admit's error. */
  lemma {:induction false} SelectNext(cat: seq<Rotor>, names: seq<string>, i: nat)
    requires i < |names|
    ensures var before := Select(cat, names[..i]);
            var admitted := Admit(cat, before.slots, i, names[i]);
            before.outcome.Pass? ==>
              Select(cat, names[..i + 1]) ==
                if admitted.Ok? then Selection(before.slots + [admitted.value], Pass)
                else Selection(before.slots, Fail(admitted.error))
  {
    assert names[..i + 1][..i] == names[..i];
  }

  /** While the scan passes, it has filled one slot per name. */
  lemma {:induction false} SelectLength(cat: seq<Rotor>, names: seq<string>)
    ensures Select(cat, names).outcome.Pass? ==> |Select(cat, names).slots| == |names|
    decreases |names|
  {
    if |names| > 0 {
      SelectLength(cat, names[..|names| - 1]);
    }
  }

  /** Once the scan fails, later names change nothing. */
  lemma {:induction false} FailureSticks(cat: seq<Rotor>, names: seq<string>, m: nat)
    requires m <= |names| && Select(cat, names[..m]).outcome.Fail?
    ensures Select(cat, names) == Select(cat, names[..m])
    decreases |names|
  {
    if m < |names| {
      assert names[..|names| - 1][..m] == names[..m];
      FailureSticks(cat, names[..|names| - 1], m);
    } else {
      assert names[..m] == names;
    }
  }

  /** Every name admitted: each slot holds the first catalogue rotor with
      that name, no rotor twice, a reflector in slot 0. */
  predicate Selectable(cat: seq<Rotor>, names: seq<string>) {
    (forall i | 0 <= i < |names| :: FirstNamed(cat, names[i]).Ok?) &&
    (forall i, j | 0 <= i < j < |names| :: FirstNamed(cat, names[i]) != FirstNamed(cat, names[j])) &&
    (|names| > 0 ==> cat[FirstNamed(cat, names[0]).value].Reflecting())
  }

  /** A name list is selectable when its front is, its last name is known,
      names a rotor not chosen before, and the rotor is a reflector if it
      is the first. */
  lemma {:induction false} SelectableSnoc(cat: seq<Rotor>, names: seq<string>)
    requires |names| > 0
    ensures var n := |names| - 1;
            Selectable(cat, names) <==>
              Selectable(cat, names[..n]) && FirstNamed(cat, names[n]).Ok? &&
              (forall i | 0 <= i < n :: FirstNamed(cat, names[i]) != FirstNamed(cat, names[n])) &&
              (n == 0 ==> cat[FirstNamed(cat, names[n]).value].Reflecting())
  {
    var n := |names| - 1;
    assert forall i | 0 <= i < n :: names[..n][i] == names[i];
  }

  /** Given slots holding the first rotors named by `front`, a further
      name is admitted exactly when it names a rotor, not one of theirs, and
      a reflector if it is the first; it is then admitted as that rotor. */
  lemma {:induction false} AdmitFresh(cat: seq<Rotor>, front: seq<string>, slots: seq<nat>, name: string)
    requires |slots| == |front|
    requires forall i | 0 <= i < |front| :: Ok(slots[i]) == FirstNamed(cat, front[i])
    ensures var r := FirstNamed(cat, name);
            Admit(cat, slots, |front|, name).Ok? <==>
              r.Ok? && (forall i | 0 <= i < |front| :: FirstNamed(cat, front[i]) != r) &&
              (|front| == 0 ==> cat[r.value].Reflecting())
    ensures Admit(cat, slots, |front|, name).Ok? ==> Admit(cat, slots, |front|, name) == FirstNamed(cat, name)
  {
    var r := FirstNamed(cat, name);
    if r.Ok? && r.value in slots {
      var i :| 0 <= i < |slots| && slots[i] == r.value;
      assert FirstNamed(cat, front[i]) == r;
    }
  }

  /** insertRotors succeeds exactly when every name is admitted, and then
      the slots are the catalogue rotors with those names, in the given
      order. */
  lemma {:induction false} InsertSucceeds(cat: seq<Rotor>, names: seq<string>)
    ensures Select(cat, names).outcome.Pass? <==> Selectable(cat, names)
    ensures Select(cat, names).outcome.Pass? ==>
              |Select(cat, names).slots| == |names| &&
              forall i | 0 <= i < |names| :: Ok(Select(cat, names).slots[i]) == FirstNamed(cat, names[i])
    decreases |names|
  {
    if |names| > 0 {
      var n := |names| - 1;
      var front := names[..n];
      InsertSucceeds(cat, front);
      SelectableSnoc(cat, names);
      var before := Select(cat, front);
      if before.outcome.Pass? {
        assert forall i | 0 <= i < n :: front[i] == names[i];
        AdmitFresh(cat, front, before.slots, names[n]);
        var admitted := Admit(cat, before.slots, n, names[n]);
        if admitted.Ok? {
          assert Select(cat, names) == Selection(before.slots + [admitted.value], Pass);
        } else {
          assert Select(cat, names).outcome.Fail?;
        }
      } else {
        assert Select(cat, names) == before;
      }
    }
  }

  /** insertRotors fails at the first name that is not admitted, with the
      error Admit gives there, and leaves the slots filled before it: the
      slots are cleared first and the failure does not undo them. */
  lemma {:induction false} InsertFailsAtFirstRefusal(cat: seq<Rotor>, names: seq<string>)
    ensures Select(cat, names).outcome.Fail? ==>
              exists m | 0 <= m < |names| ::
                Select(cat, names[..m]).outcome.Pass? &&
                Select(cat, names).slots == Select(cat, names[..m]).slots &&
                Admit(cat, Select(cat, names[..m]).slots, m, names[m]) == Err(Select(cat, names).outcome.error)
    decreases |names|
  {
    if |names| > 0 {
      var n := |names| - 1;
      var front := names[..n];
      var before := Select(cat, front);
      if before.outcome.Fail? {
        InsertFailsAtFirstRefusal(cat, front);
        var m :| 0 <= m < n &&
          Select(cat, front[..m]).outcome.Pass? &&
          before.slots == Select(cat, front[..m]).slots &&
          Admit(cat, Select(cat, front[..m]).slots, m, front[m]) == Err(before.outcome.error);
        assert front[..m] == names[..m];
      } else if Select(cat, names).outcome.Fail? {
        assert names[..n] == front;
        assert Select(cat, names).slots == before.slots;
        assert Admit(cat, before.slots, n, names[n]) == Err(Select(cat, names).outcome.error);
      }
    }
  }

  // ---------------------------------------------------------------------
  // Settings: setRotors and getSettings
  // ---------------------------------------------------------------------

  /** The rotor set to character `ch`, or left as it is when `ch` is not in
      its alphabet (the source throws at that point). */
  function Settled(r: Rotor, ch: char): Rotor {
    match r.SetChar(ch)
    case Ok(v) => v
    case Err(_) => r
  }

  /** The active rotors after setRotors has set slots 1 to `m` from the
      first `m` characters of `setting`; slot 0 is never set. */
  function WithSettings(rs: seq<Rotor>, setting: string, m: nat): (ts: seq<Rotor>)
    requires m <= |setting| && m < |rs|
    ensures |ts| == |rs|
  {
    seq(|rs|, i requires 0 <= i < |rs| => if 1 <= i <= m then Settled(rs[i], setting[i - 1]) else rs[i])
  }

  /** Every catalogue entry that no slot names is the same in `before` and
      `after`. */
  predicate OnlySlotsChanged(before: seq<Rotor>, after: seq<Rotor>, slots: seq<nat>) {
    |before| == |after| && forall k | 0 <= k < |after| && k !in slots :: after[k] == before[k]
  }

  lemma {:induction false} OnlySlotsChangedTwice(a: seq<Rotor>, b: seq<Rotor>, c: seq<Rotor>, slots: seq<nat>)
    requires OnlySlotsChanged(a, b, slots) && OnlySlotsChanged(b, c, slots)
    ensures OnlySlotsChanged(a, c, slots)
  {
  }

  /** Putting `r` in the catalogue entry of slot i changes the active rotor
      of slot i, and no other, since no two slots share an entry. */
  lemma {:induction false} ActiveReplaced(cat: seq<Rotor>, slots: seq<nat>, i: nat, r: Rotor)
    requires InCatalogue(slots, |cat|) && Seqs.Distinct(slots) && i < |slots|
    ensures Active(cat[slots[i] := r], slots) == Active(cat, slots)[i := r]
  {
    var after, before := Active(cat[slots[i] := r], slots), Active(cat, slots);
    forall j | 0 <= j < |slots| ensures after[j] == before[i := r][j] {
      if j != i {
        assert slots[j] != slots[i];
      }
    }
  }

  /** Setting one more slot from the setting string. */
  lemma {:induction false} WithSettingsStep(rs: seq<Rotor>, setting: string, m: nat)
    requires m < |setting| && m + 1 < |rs|
    ensures WithSettings(rs, setting, m + 1) == WithSettings(rs, setting, m)[m + 1 := Settled(rs[m + 1], setting[m])]
  {
  }

  /** getSettings: the setting of every slot but the reflector's, as
      characters of the alphabet, left to right. */
  function Readout(alphabet: Alphabet, rs: seq<Rotor>): (s: string)
    requires AllFit(rs, alphabet)
    ensures |rs| > 0 ==> |s| == |rs| - 1
    ensures |rs| == 0 ==> s == ""
  {
    if |rs| == 0 then ""
    else seq(|rs| - 1, i requires 0 <= i < |rs| - 1 => alphabet.ToChar(rs[i + 1].setting))
  }

  /** Setting the rotors keeps them fitting the alphabet, and changes
      nothing but the settings of slots 1 to `m`. */
  lemma {:induction false} SettingsFit(alphabet: Alphabet, rs: seq<Rotor>, setting: string, m: nat)
    requires AllFit(rs, alphabet) && m <= |setting| && m < |rs|
    ensures AllFit(WithSettings(rs, setting, m), alphabet)
    ensures forall i | 0 <= i < |rs| ::
              SameRotor(WithSettings(rs, setting, m)[i], rs[i])
    ensures WithSettings(rs, setting, m)[0] == rs[0]
  {
  }

  /** getSettings reads back what setRotors wrote: after a successful
      setRotors the readout is the setting string itself, and after one that
      stopped at position `m` it begins with the `m` characters that were
      set. */
  lemma {:induction false} SettingsRoundTrip(alphabet: Alphabet, rs: seq<Rotor>, setting: string, m: nat)
    requires AllFit(rs, alphabet) && m <= |setting| && |setting| == |rs| - 1
    requires forall i | 0 <= i < m :: alphabet.Contains(setting[i])
    ensures Readout(alphabet, WithSettings(rs, setting, m))[..m] == setting[..m]
    ensures m == |setting| ==> Readout(alphabet, WithSettings(rs, setting, m)) == setting
  {
    var ts := WithSettings(rs, setting, m);
    SettingsFit(alphabet, rs, setting, m);
    var out := Readout(alphabet, ts);
    forall i | 0 <= i < m
      ensures out[i] == setting[i]
    {
      assert ts[i + 1] == rs[i + 1].SetChar(setting[i]).value;
    }
    assert out[..m] == setting[..m];
  }

  // ---------------------------------------------------------------------
  // Stepping: advanceRotors
  // ---------------------------------------------------------------------

  /** Whether the pawl scan marks slot `i`: the rightmost slot always; a
      slot at a notch whose left neighbour rotates; and that left
      neighbour. */
  predicate Marked(rs: seq<Rotor>, i: int)
    requires 0 <= i < |rs|
  {
    i == |rs| - 1 ||
    (0 < i && rs[i].AtNotch() && rs[i - 1].Rotates()) ||
    (i + 1 < |rs| && rs[i + 1].AtNotch() && rs[i].Rotates())
  }

  /** Every rotor of `rs` has a non-empty alphabet. */
  predicate Sized(rs: seq<Rotor>) {
    forall i | 0 <= i < |rs| :: rs[i].Size() > 0
  }

  /** The active rotors after advanceRotors: every marked rotor that can
      rotate, except slot 0's, advances once; the rest stay. */
  function Stepped(rs: seq<Rotor>): (ts: seq<Rotor>)
    requires Sized(rs)
    ensures |ts| == |rs|
    ensures SameRotors(ts, rs)
  {
    seq(|rs|, i requires 0 <= i < |rs| => if 1 <= i && rs[i].Rotates() && Marked(rs, i) then rs[i].Advance() else rs[i])
  }

  /** The stepping rule, slot by slot.  Slot 0 and every rotor that cannot
      rotate stay.  A rotating rotor in a slot i >= 1 advances exactly when
      it is the rightmost, when its right neighbour is at a notch, or when
      it is itself at a notch and its left neighbour rotates (the double
      step of the middle rotor); otherwise it stays.  Advancing moves the
      setting one position on, modulo the alphabet size. */
  lemma {:induction false} SteppingRule(rs: seq<Rotor>, i: int)
    requires Sized(rs) && 0 <= i < |rs|
    ensures var t := Stepped(rs)[i];
            t.name == rs[i].name && t.kind == rs[i].kind && t.perm == rs[i].perm
    ensures (i == 0 || !rs[i].Rotates()) ==> Stepped(rs)[i] == rs[i]
    ensures 1 <= i && rs[i].Rotates() ==>
              var advances := i == |rs| - 1 || (i + 1 < |rs| && rs[i + 1].AtNotch()) ||
                              (rs[i].AtNotch() && rs[i - 1].Rotates());
              (advances ==> Stepped(rs)[i].setting == (rs[i].setting + 1) % rs[i].Size()) &&
              (!advances ==> Stepped(rs)[i] == rs[i])
  {
  }

  /** Rotors that fit an alphabet all have its size, which is not 0. */
  lemma {:induction false} FitSized(alphabet: Alphabet, rs: seq<Rotor>)
    requires AllFit(rs, alphabet)
    ensures Sized(rs) && SizedAs(rs, alphabet.Size())
  {
  }

  /** Stepping keeps every rotor fitting the alphabet. */
  lemma {:induction false} SteppedFit(alphabet: Alphabet, rs: seq<Rotor>)
    requires AllFit(rs, alphabet) && Sized(rs)
    ensures AllFit(Stepped(rs), alphabet)
  {
  }

  /** The rotors B, Beta, III, IV and I over the upper-case alphabet with
      the given settings of slots 1 to 4: a reflector, a fixed rotor, and
      moving rotors with their notches at V, J and Q.  Stepping only looks
      at the variants, notches and settings, so every wiring here is the
      identity. */
  function NavalSlots(beta: int, iii: int, iv: int, i: int): (rs: seq<Rotor>)
    requires 0 <= beta < 26 && 0 <= iii < 26 && 0 <= iv < 26 && 0 <= i < 26
    ensures |rs| == 5 && AllFit(rs, Upper()) && Sized(rs)
  {
    var p := Permutation(Upper(), []);
    [Rotor("B", Reflector, p, 0), Rotor("Beta", Fixed, p, beta), Rotor("III", Moving({21}), p, iii),
     Rotor("IV", Moving({9}), p, iv), Rotor("I", Moving({16}), p, i)]
  }

  /** The readouts of the stepping test, from AXLE: AXLF after one key
      press, AXLQ after twelve (only the rightmost rotor moves), AXMR after
      thirteen (I at its notch carries IV); and from AXIQ: AXJR after one
      press, then AYKS (IV at its notch moves itself and III: the double
      step). */
  lemma {:induction false} SteppingReadouts()
    ensures Readout(Upper(), NavalSlots(0, 23, 11, 4)) == "AXLE"
    ensures Readout(Upper(), Turned(NavalSlots(0, 23, 11, 4), Upper(), 1)) == "AXLF"
    ensures Readout(Upper(), Turned(NavalSlots(0, 23, 11, 4), Upper(), 12)) == "AXLQ"
    ensures Readout(Upper(), Turned(NavalSlots(0, 23, 11, 4), Upper(), 13)) == "AXMR"
    ensures Readout(Upper(), Turned(NavalSlots(0, 23, 8, 16), Upper(), 1)) == "AXJR"
    ensures Readout(Upper(), Turned(NavalSlots(0, 23, 8, 16), Upper(), 2)) == "AYKS"
  {
    var axle, axiq := NavalSlots(0, 23, 11, 4), NavalSlots(0, 23, 8, 16);
    NavalReadout(0, 23, 11, 4);
    QuietSteps(0, 23, 11, 4, 1);
    NavalReadout(0, 23, 11, 5);
    QuietSteps(0, 23, 11, 4, 12);
    NavalReadout(0, 23, 11, 16);
    TurnedStep(axle, Upper(), 12);
    NavalStep(0, 23, 11, 16, 23, 12, 17);
    NavalReadout(0, 23, 12, 17);
    TurnedStep(axiq, Upper(), 0);
    NavalStep(0, 23, 8, 16, 23, 9, 17);
    NavalReadout(0, 23, 9, 17);
    TurnedStep(axiq, Upper(), 1);
    NavalStep(0, 23, 9, 17, 24, 10, 18);
    NavalReadout(0, 24, 10, 18);
  }

  /** While IV is off its notch and I does not leave its notch, each key
      press moves I alone. */
  lemma {:induction false} QuietSteps(beta: int, iii: int, iv: int, i: int, k: nat)
    requires 0 <= beta < 26 && 0 <= iii < 26 && 0 <= iv < 26 && iv != 9 && 0 <= i && i + k <= 16
    ensures Turned(NavalSlots(beta, iii, iv, i), Upper(), k) == NavalSlots(beta, iii, iv, i + k)
  {
    var rs := NavalSlots(beta, iii, iv, i);
    if k > 0 {
      var j := i + (k - 1);
      QuietSteps(beta, iii, iv, i, k - 1);
      assert Turned(rs, Upper(), k - 1) == NavalSlots(beta, iii, iv, j);
      TurnedStep(rs, Upper(), k - 1);
      assert Turned(rs, Upper(), k) == Stepped(NavalSlots(beta, iii, iv, j));
      NavalStep(beta, iii, iv, j, iii, iv, j + 1);
      assert j + 1 == i + k;
    } else {
      assert Turned(rs, Upper(), 0) == rs;
    }
  }

  /** The readout of the test rotors is their four settings as letters. */
  lemma {:induction false} NavalReadout(beta: int, iii: int, iv: int, i: int)
    requires 0 <= beta < 26 && 0 <= iii < 26 && 0 <= iv < 26 && 0 <= i < 26
    ensures var u := Upper().chars;
            Readout(Upper(), NavalSlots(beta, iii, iv, i)) == [u[beta], u[iii], u[iv], u[i]]
  {
  }

  /** One step of the test rotors, as the stepping rule gives it: the
      reflector and Beta stay, and III, IV and I reach the given settings. */
  lemma {:induction false} NavalStep(beta: int, iii: int, iv: int, i: int, iii2: int, iv2: int, i2: int)
    requires 0 <= beta < 26 && 0 <= iii < 26 && 0 <= iv < 26 && 0 <= i < 26
    requires 0 <= iii2 < 26 && 0 <= iv2 < 26 && 0 <= i2 < 26
    requires i2 == (i + 1) % 26
    requires iv2 == if i == 16 || (iv == 9) then (iv + 1) % 26 else iv
    requires iii2 == if iv == 9 then (iii + 1) % 26 else iii
    ensures Stepped(NavalSlots(beta, iii, iv, i)) == NavalSlots(beta, iii2, iv2, i2)
  {
    var rs := NavalSlots(beta, iii, iv, i);
    var ts := NavalSlots(beta, iii2, iv2, i2);
    var ss := Stepped(rs);
    assert ss[0] == ts[0] && ss[1] == ts[1];
    assert ss[2] == ts[2];
    assert ss[3] == ts[3];
    assert ss[4] == ts[4];
  }

  // ---------------------------------------------------------------------
  // The signal path: convert(int)
  // ---------------------------------------------------------------------

  /** Every rotor of `rs` has an alphabet of size `n`. */
  predicate SizedAs(rs: seq<Rotor>, n: nat) {
    forall i | 0 <= i < |rs| :: rs[i].Size() == n
  }

  /** Forward through slots |rs|-1 down to `j`, rightmost first. */
  function Forward(rs: seq<Rotor>, j: nat, c: int): (r: int)
    requires Sized(rs) && j <= |rs|
    ensures j < |rs| ==> 0 <= r < rs[j].Size()
    decreases |rs| - j
  {
    if j == |rs| then c else rs[j].ConvertForward(Forward(rs, j + 1, c))
  }

  /** Backward through slots `j` up to |rs|-1, leftmost first. */
  function Backward(rs: seq<Rotor>, j: nat, c: int): (r: int)
    requires Sized(rs) && j <= |rs|
    ensures j < |rs| ==> 0 <= r < rs[|rs| - 1].Size()
    decreases |rs| - j
  {
    if j == |rs| then c else Backward(rs, j + 1, rs[j].ConvertBackward(c))
  }

  /** The plugboard on the way in: the identity when there is none. */
  function PlugIn(plugboard: Option<Permutation>, c: int): (r: int)
    requires plugboard.Some? ==> plugboard.value.Size() > 0 && plugboard.value.Valid()
    ensures plugboard.Some? ==> 0 <= r < plugboard.value.Size()
    ensures plugboard.None? ==> r == c
  {
    if plugboard.Some? then plugboard.value.Permute(c) else c
  }

  /** The plugboard on the way out: its inverse. */
  function PlugOut(plugboard: Option<Permutation>, c: int): (r: int)
    requires plugboard.Some? ==> plugboard.value.Size() > 0 && plugboard.value.Valid()
    ensures plugboard.Some? ==> 0 <= r < plugboard.value.Size()
    ensures plugboard.None? ==> r == c
  {
    if plugboard.Some? then plugboard.value.Invert(c) else c
  }

  /** convert(int) after the rotors have advanced: plugboard, rotors
      right to left, the reflector in slot 0, rotors left to right,
      plugboard inverse.  The result is a contact of the alphabet. */
  function Path(rs: seq<Rotor>, plugboard: Option<Permutation>, c: int): (r: int)
    requires |rs| > 0 && Sized(rs) && SizedAs(rs, rs[0].Size())
    requires plugboard.Some? ==> plugboard.value.Size() == rs[0].Size() && plugboard.value.Valid()
    ensures 0 <= r < rs[0].Size()
  {
    PlugOut(plugboard, Backward(rs, 1, rs[0].ConvertForward(Forward(rs, 1, PlugIn(plugboard, c)))))
  }

  /** The signal path of convert(int), as the source runs it over the
      rotors in the slots once they have advanced. */
  method Route(rs: seq<Rotor>, plugboard: Option<Permutation>, c: int) returns (r: int)
    requires |rs| > 0 && Sized(rs) && SizedAs(rs, rs[0].Size())
    requires plugboard.Some? ==> plugboard.value.Size() == rs[0].Size() && plugboard.value.Valid()
    ensures r == Path(rs, plugboard, c)
  {
    var x := c;
    if plugboard.Some? {
      x := plugboard.value.Permute(x);
    }
    ghost var entry := x;
    assert entry == PlugIn(plugboard, c);
    var i := |rs| - 1;
    while i > 0
      invariant 0 <= i <= |rs| - 1
      invariant x == Forward(rs, i + 1, entry)
    {
      x := rs[i].ConvertForward(x);
      i := i - 1;
    }
    x := rs[0].ConvertForward(x);
    ghost var y := x;
    i := 1;
    while i < |rs|
      invariant 1 <= i <= |rs|
      invariant Backward(rs, i, x) == Backward(rs, 1, y)
    {
      assert Backward(rs, i, x) == Backward(rs, i + 1, rs[i].ConvertBackward(x));
      x := rs[i].ConvertBackward(x);
      i := i + 1;
    }
    assert x == Backward(rs, 1, y);
    if plugboard.Some? {
      x := plugboard.value.Invert(x);
    }
    r := x;
  }

  /** The rotors' wirings and the plugboard's are well formed: entries
      within the alphabet and no contact in two cycles. */
  predicate Wired(rs: seq<Rotor>) {
    forall i | 0 <= i < |rs| :: rs[i].perm.Valid() && Disjoint(rs[i].perm.cycles)
  }

  /** Going back undoes going forward, for every contact of the alphabet. */
  lemma {:induction false} BackwardUndoesForwardPath(rs: seq<Rotor>, n: nat, j: nat, x: int)
    requires n > 0 && SizedAs(rs, n) && Wired(rs) && j <= |rs| && 0 <= x < n
    ensures Backward(rs, j, Forward(rs, j, x)) == x
    decreases |rs| - j
  {
    if j < |rs| {
      var y := Forward(rs, j + 1, x);
      BackwardUndoesForward(rs[j], y);
      if j + 1 < |rs| {
        WrapInRange(rs[j].perm, y);
      } else {
        WrapInRange(rs[j].perm, x);
      }
      BackwardUndoesForwardPath(rs, n, j + 1, x);
    }
  }

  /** Going forward undoes going back, for every contact of the alphabet. */
  lemma {:induction false} ForwardUndoesBackwardPath(rs: seq<Rotor>, n: nat, j: nat, y: int)
    requires n > 0 && SizedAs(rs, n) && Wired(rs) && j <= |rs| && 0 <= y < n
    ensures Forward(rs, j, Backward(rs, j, y)) == y
    decreases |rs| - j
  {
    if j < |rs| {
      var z := rs[j].ConvertBackward(y);
      ForwardUndoesBackwardPath(rs, n, j + 1, z);
      ForwardUndoesBackward(rs[j], y);
      WrapInRange(rs[j].perm, y);
    }
  }

  /** The machine is its own inverse: with a reflector whose cycles are
      pairs or single contacts, and well-formed wirings and plugboard,
      converting the output of convert at the same rotor positions gives
      back the input. */
  lemma {:induction false} Reciprocal(rs: seq<Rotor>, plugboard: Option<Permutation>, c: int)
    requires |rs| > 0 && rs[0].Size() > 0 && SizedAs(rs, rs[0].Size()) && Wired(rs)
    requires rs[0].perm.Involutive()
    requires plugboard.Some? ==>
               plugboard.value.Size() == rs[0].Size() && plugboard.value.Valid() && Disjoint(plugboard.value.cycles)
    requires 0 <= c < rs[0].Size()
    ensures Path(rs, plugboard, Path(rs, plugboard, c)) == c
  {
    var n := rs[0].Size();
    var a := PlugIn(plugboard, c);
    var x := Forward(rs, 1, a);
    var y := rs[0].ConvertForward(x);
    var z := Backward(rs, 1, y);
    var out := PlugOut(plugboard, z);
    assert 0 <= z < n;
    assert 0 <= a < n;
    if plugboard.Some? {
      PermuteUndoesInvert(plugboard.value, z);
      WrapInRange(plugboard.value, z);
      InvertUndoesPermute(plugboard.value, c);
      WrapInRange(plugboard.value, c);
    }
    assert PlugIn(plugboard, out) == z;
    ForwardUndoesBackwardPath(rs, n, 1, y);
    assert 0 <= x < n;
    ReflectionInvolution(rs[0], x);
    WrapInRange(rs[0].perm, x);
    BackwardUndoesForwardPath(rs, n, 1, a);
  }

  /** No contact is converted to itself when the reflector's wiring is a
      derangement (fixes no contact): the reason an Enigma never enciphers
      a letter as itself. */
  lemma {:induction false} NeverItself(rs: seq<Rotor>, plugboard: Option<Permutation>, c: int)
    requires |rs| > 0 && rs[0].Size() > 0 && SizedAs(rs, rs[0].Size()) && Wired(rs)
    requires rs[0].perm.Derangement()
    requires plugboard.Some? ==>
               plugboard.value.Size() == rs[0].Size() && plugboard.value.Valid() && Disjoint(plugboard.value.cycles)
    requires 0 <= c < rs[0].Size()
    ensures Path(rs, plugboard, c) != c
  {
    var n := rs[0].Size();
    var a := PlugIn(plugboard, c);
    var x := Forward(rs, 1, a);
    var y := rs[0].ConvertForward(x);
    var z := Backward(rs, 1, y);
    assert 0 <= a < n && 0 <= x < n && 0 <= z < n;
    if PlugOut(plugboard, z) == c {
      if plugboard.Some? {
        PermuteUndoesInvert(plugboard.value, z);
        WrapInRange(plugboard.value, z);
      }
      assert z == a;
      ForwardUndoesBackwardPath(rs, n, 1, y);
      NoFixedContact(rs[0], x);
      assert false;
    }
  }

  // ---------------------------------------------------------------------
  // Messages: convert(String)
  // ---------------------------------------------------------------------

  /** Java's Character.isWhitespace: the ASCII controls tab to carriage
      return and file to unit separator, and the Unicode space, line and
      paragraph separators other than the non-breaking ones. */
  predicate IsWhitespace(ch: char) {
    ('\U{0009}' <= ch <= '\U{000D}') || ('\U{001C}' <= ch <= '\U{0020}') ||
    ch == '\U{1680}' || ('\U{2000}' <= ch <= '\U{2006}') || ('\U{2008}' <= ch <= '\U{200A}') ||
    ch == '\U{2028}' || ch == '\U{2029}' || ch == '\U{205F}' || ch == '\U{3000}'
  }

  /** The message without its whitespace: the characters convert(String)
      actually converts. */
  function Letters(msg: string): (ls: string)
    ensures |ls| <= |msg|
    ensures forall i | 0 <= i < |ls| :: !IsWhitespace(ls[i])
    decreases |msg|
  {
    if |msg| == 0 then ""
    else
      var front := Letters(msg[..|msg| - 1]);
      if IsWhitespace(msg[|msg| - 1]) then front else front + [msg[|msg| - 1]]
  }

  /** The letters of a prefix of a message are a prefix of its letters. */
  lemma {:induction false} LettersPrefix(msg: string, i: nat)
    requires i <= |msg|
    ensures Letters(msg[..i]) <= Letters(msg)
    decreases |msg|
  {
    if i < |msg| {
      var n := |msg| - 1;
      assert msg[..n][..i] == msg[..i];
      LettersPrefix(msg[..n], i);
    } else {
      assert msg[..i] == msg;
    }
  }

  /** A message without whitespace is its own letters. */
  lemma {:induction false} LettersOfPlain(msg: string)
    requires forall i | 0 <= i < |msg| :: !IsWhitespace(msg[i])
    ensures Letters(msg) == msg
    decreases |msg|
  {
    if |msg| > 0 {
      var n := |msg| - 1;
      LettersOfPlain(msg[..n]);
      assert msg[..n] + [msg[n]] == msg;
    }
  }

  /** The rotors after `k` key presses. */
  function Turned(rs: seq<Rotor>, alphabet: Alphabet, k: nat): (ts: seq<Rotor>)
    requires AllFit(rs, alphabet)
    ensures |ts| == |rs| && AllFit(ts, alphabet)
    ensures SameRotors(ts, rs)
  {
    if k == 0 then rs
    else
      var before := Turned(rs, alphabet, k - 1);
      FitSized(alphabet, before);
      SteppedFit(alphabet, before);
      Stepped(before)
  }

  /** One key press already made: convert(int) on the index of `ch` with
      the rotors `ts`, turned back into a character. */
  function Key(ts: seq<Rotor>, plugboard: Option<Permutation>, alphabet: Alphabet, ch: char): (out: char)
    requires |ts| > 0 && AllFit(ts, alphabet) && PlugboardFits(plugboard, alphabet) && alphabet.Contains(ch)
    ensures alphabet.Contains(out)
  {
    FitSized(alphabet, ts);
    alphabet.ToChar(Path(ts, plugboard, alphabet.ToInt(ch).value))
  }

  /** The enciphering of letters that are all in the alphabet: letter `j`
      goes through the rotors as they stand after `j + 1` presses. */
  function Cipher(rs: seq<Rotor>, plugboard: Option<Permutation>, alphabet: Alphabet, ls: string): (out: string)
    requires |rs| > 0 && AllFit(rs, alphabet) && PlugboardFits(plugboard, alphabet)
    requires forall j | 0 <= j < |ls| :: alphabet.Contains(ls[j])
    ensures |out| == |ls|
  {
    seq(|ls|, j requires 0 <= j < |ls| => Key(Turned(rs, alphabet, j + 1), plugboard, alphabet, ls[j]))
  }

  /** What convert(String) produces and the rotors it leaves behind. */
  datatype Transcript = Transcript(out: Result<string>, rotors: seq<Rotor>)

  /** The conversion of a whole message.  Whitespace is skipped without a
      step.  Each other character steps the rotors and is converted.  The
      first character outside the alphabet stops the message with an error,
      after the steps for the letters before it. */
  function Run(rs: seq<Rotor>, plugboard: Option<Permutation>, alphabet: Alphabet, msg: string): (t: Transcript)
    requires |rs| > 0 && AllFit(rs, alphabet) && PlugboardFits(plugboard, alphabet)
    ensures var ls := Letters(msg);
            (t.out.Ok? <==> forall i | 0 <= i < |ls| :: alphabet.Contains(ls[i])) &&
            (t.out.Ok? ==> |t.out.value| == |ls|)
  {
    var ls := Letters(msg);
    var m := alphabet.FirstAbsent(ls);
    if m < |ls| then
      var t := Transcript(Err(UnknownChar(ls[m])), Turned(rs, alphabet, m));
      assert !t.out.Ok? && ls == Letters(msg);
      t
    else Transcript(Ok(Cipher(rs, plugboard, alphabet, ls)), Turned(rs, alphabet, |ls|))
  }

  /** One more key press steps the rotors once more. */
  lemma {:induction false} TurnedStep(rs: seq<Rotor>, alphabet: Alphabet, k: nat)
    requires AllFit(rs, alphabet)
    ensures var t := Turned(rs, alphabet, k); Sized(t) && Turned(rs, alphabet, k + 1) == Stepped(t)
  {
    FitSized(alphabet, Turned(rs, alphabet, k));
  }

  /** One letter more of the message: the rotors step once more and its
      key is appended to the output so far. */
  lemma {:induction false} LetterStep(rs: seq<Rotor>, plugboard: Option<Permutation>, alphabet: Alphabet,
                                      ls: string, ch: char, turned: seq<Rotor>, out: string)
    requires |rs| > 0 && AllFit(rs, alphabet) && PlugboardFits(plugboard, alphabet)
    requires forall j | 0 <= j < |ls| :: alphabet.Contains(ls[j])
    requires alphabet.Contains(ch)
    requires out == Cipher(rs, plugboard, alphabet, ls)
    requires turned == Turned(rs, alphabet, |ls|)
    ensures var ext := ls + [ch];
            (forall j | 0 <= j < |ext| :: alphabet.Contains(ext[j])) &&
            Sized(turned) && Stepped(turned) == Turned(rs, alphabet, |ext|) &&
            out + [Key(Stepped(turned), plugboard, alphabet, ch)] == Cipher(rs, plugboard, alphabet, ext)
  {
    var ext := ls + [ch];
    assert |ext| == |ls| + 1;
    TurnedStep(rs, alphabet, |ls|);
    assert Stepped(turned) == Turned(rs, alphabet, |ext|);
    CipherSnoc(rs, plugboard, alphabet, ls, ch);
  }

  /** Stepping and running keep the wirings, so they keep them well formed. */
  lemma {:induction false} WiredKept(rs: seq<Rotor>, ts: seq<Rotor>)
    requires Wired(rs) && SameRotors(ts, rs)
    ensures Wired(ts)
  {
    assert forall i | 0 <= i < |rs| :: ts[i].perm == rs[i].perm;
  }

  /** Pressing the output key at the same rotor positions gives back the
      input character. */
  lemma {:induction false} KeyTwice(ts: seq<Rotor>, plugboard: Option<Permutation>, alphabet: Alphabet, ch: char)
    requires |ts| > 0 && AllFit(ts, alphabet) && PlugboardFits(plugboard, alphabet) && alphabet.Contains(ch)
    requires alphabet.NoDuplicates() && Wired(ts) && ts[0].perm.Involutive()
    requires plugboard.Some? ==> Disjoint(plugboard.value.cycles)
    ensures Key(ts, plugboard, alphabet, Key(ts, plugboard, alphabet, ch)) == ch
  {
    FitSized(alphabet, ts);
    var code := alphabet.ToInt(ch).value;
    var e := Path(ts, plugboard, code);
    ToIntOfToChar(alphabet, e);
    Reciprocal(ts, plugboard, code);
  }

  /** Enciphering the cipher of some letters at the same rotor positions
      gives back each letter. */
  lemma {:induction false} CipherTwiceAt(rs: seq<Rotor>, plugboard: Option<Permutation>, alphabet: Alphabet, ls: string, j: int)
    requires |rs| > 0 && AllFit(rs, alphabet) && PlugboardFits(plugboard, alphabet)
    requires forall i | 0 <= i < |ls| :: alphabet.Contains(ls[i])
    requires alphabet.NoDuplicates() && Wired(rs) && rs[0].perm.Involutive()
    requires plugboard.Some? ==> Disjoint(plugboard.value.cycles)
    requires 0 <= j < |ls|
    ensures var cipher := Cipher(rs, plugboard, alphabet, ls);
            alphabet.Contains(cipher[j]) &&
            ((forall i | 0 <= i < |cipher| :: alphabet.Contains(cipher[i])) ==>
               Cipher(rs, plugboard, alphabet, cipher)[j] == ls[j])
  {
    var ts := Turned(rs, alphabet, j + 1);
    var cipher := Cipher(rs, plugboard, alphabet, ls);
    assert cipher[j] == Key(ts, plugboard, alphabet, ls[j]);
    WiredKept(rs, ts);
    KeyTwice(ts, plugboard, alphabet, ls[j]);
    if forall i | 0 <= i < |cipher| :: alphabet.Contains(cipher[i]) {
      assert Cipher(rs, plugboard, alphabet, cipher)[j] == Key(ts, plugboard, alphabet, cipher[j]);
    }
  }

  /** Enciphering the cipher of some letters at the same rotor positions
      gives back the letters. */
  lemma {:induction false} CipherTwice(rs: seq<Rotor>, plugboard: Option<Permutation>, alphabet: Alphabet, ls: string)
    requires |rs| > 0 && AllFit(rs, alphabet) && PlugboardFits(plugboard, alphabet)
    requires forall j | 0 <= j < |ls| :: alphabet.Contains(ls[j])
    requires alphabet.NoDuplicates() && Wired(rs) && rs[0].perm.Involutive()
    requires plugboard.Some? ==> Disjoint(plugboard.value.cycles)
    ensures var cipher := Cipher(rs, plugboard, alphabet, ls);
            (forall j | 0 <= j < |cipher| :: alphabet.Contains(cipher[j])) &&
            Cipher(rs, plugboard, alphabet, cipher) == ls
  {
    var cipher := Cipher(rs, plugboard, alphabet, ls);
    forall j | 0 <= j < |ls|
      ensures alphabet.Contains(cipher[j])
    {
      CipherTwiceAt(rs, plugboard, alphabet, ls, j);
    }
    forall j | 0 <= j < |ls|
      ensures Cipher(rs, plugboard, alphabet, cipher)[j] == ls[j]
    {
      CipherTwiceAt(rs, plugboard, alphabet, ls, j);
    }
  }

  /** A message of letters that are all in the alphabet converts to their
      cipher, one press per letter. */
  lemma {:induction false} RunPlain(rs: seq<Rotor>, plugboard: Option<Permutation>, alphabet: Alphabet, ls: string)
    requires |rs| > 0 && AllFit(rs, alphabet) && PlugboardFits(plugboard, alphabet)
    requires forall j | 0 <= j < |ls| :: alphabet.Contains(ls[j]) && !IsWhitespace(ls[j])
    ensures Run(rs, plugboard, alphabet, ls) ==
              Transcript(Ok(Cipher(rs, plugboard, alphabet, ls)), Turned(rs, alphabet, |ls|))
  {
    LettersOfPlain(ls);
  }

  /** Deciphering is enciphering: from the same rotor positions, converting
      the output of convert(String) gives back the letters of the message
      and leaves the rotors where the first conversion left them.  This
      needs an alphabet without repeated or whitespace characters, a
      reflector made of pairs, and well-formed wirings and plugboard. */
  lemma {:induction false} RunReciprocal(rs: seq<Rotor>, plugboard: Option<Permutation>, alphabet: Alphabet, msg: string)
    requires |rs| > 0 && AllFit(rs, alphabet) && PlugboardFits(plugboard, alphabet)
    requires alphabet.NoDuplicates() && forall i | 0 <= i < alphabet.Size() :: !IsWhitespace(alphabet.chars[i])
    requires Wired(rs) && rs[0].perm.Involutive()
    requires plugboard.Some? ==> Disjoint(plugboard.value.cycles)
    ensures var t := Run(rs, plugboard, alphabet, msg);
            t.out.Ok? ==> Run(rs, plugboard, alphabet, t.out.value) == Transcript(Ok(Letters(msg)), t.rotors)
  {
    var t := Run(rs, plugboard, alphabet, msg);
    if t.out.Ok? {
      var ls := Letters(msg);
      var cipher := Cipher(rs, plugboard, alphabet, ls);
      assert t == Transcript(Ok(cipher), Turned(rs, alphabet, |ls|));
      CipherTwice(rs, plugboard, alphabet, ls);
      forall j | 0 <= j < |cipher|
        ensures alphabet.Contains(cipher[j]) && !IsWhitespace(cipher[j])
      {
        var k :| 0 <= k < alphabet.Size() && alphabet.chars[k] == cipher[j];
      }
      RunPlain(rs, plugboard, alphabet, cipher);
    }
  }

  /** With a reflector whose wiring is a derangement, no letter is ever
      enciphered as itself. */
  lemma {:induction false} CipherNeverItself(rs: seq<Rotor>, plugboard: Option<Permutation>, alphabet: Alphabet, ls: string, j: int)
    requires |rs| > 0 && AllFit(rs, alphabet) && PlugboardFits(plugboard, alphabet)
    requires forall i | 0 <= i < |ls| :: alphabet.Contains(ls[i])
    requires alphabet.NoDuplicates() && Wired(rs) && rs[0].perm.Derangement()
    requires plugboard.Some? ==> Disjoint(plugboard.value.cycles)
    requires 0 <= j < |ls|
    ensures Cipher(rs, plugboard, alphabet, ls)[j] != ls[j]
  {
    var ts := Turned(rs, alphabet, j + 1);
    WiredKept(rs, ts);
    FitSized(alphabet, ts);
    var code := alphabet.ToInt(ls[j]).value;
    NeverItself(ts, plugboard, code);
    ToIntOfToChar(alphabet, Path(ts, plugboard, code));
  }

  /** The last letter of an extended cipher is the new letter converted
      after one more press. */
  lemma {:induction false} CipherLast(rs: seq<Rotor>, plugboard: Option<Permutation>, alphabet: Alphabet, ls: string, ch: char)
    requires |rs| > 0 && AllFit(rs, alphabet) && PlugboardFits(plugboard, alphabet)
    requires forall j | 0 <= j < |ls| :: alphabet.Contains(ls[j])
    requires alphabet.Contains(ch)
    ensures forall j | 0 <= j < |ls + [ch]| :: alphabet.Contains((ls + [ch])[j])
    ensures Cipher(rs, plugboard, alphabet, ls + [ch])[|ls|] == Key(Turned(rs, alphabet, |ls| + 1), plugboard, alphabet, ch)
  {
  }

  /** Extending the letters leaves the earlier cipher letters alone. */
  lemma {:induction false} CipherFront(rs: seq<Rotor>, plugboard: Option<Permutation>, alphabet: Alphabet, ls: string, ch: char, j: int)
    requires |rs| > 0 && AllFit(rs, alphabet) && PlugboardFits(plugboard, alphabet)
    requires forall i | 0 <= i < |ls| :: alphabet.Contains(ls[i])
    requires alphabet.Contains(ch) && 0 <= j < |ls|
    ensures forall i | 0 <= i < |ls + [ch]| :: alphabet.Contains((ls + [ch])[i])
    ensures Cipher(rs, plugboard, alphabet, ls + [ch])[j] == Cipher(rs, plugboard, alphabet, ls)[j]
  {
    assert (ls + [ch])[j] == ls[j];
  }

  /** Enciphering one more letter appends its conversion at the rotor
      positions after one more press. */
  lemma {:induction false} CipherSnoc(rs: seq<Rotor>, plugboard: Option<Permutation>, alphabet: Alphabet, ls: string, ch: char)
    requires |rs| > 0 && AllFit(rs, alphabet) && PlugboardFits(plugboard, alphabet)
    requires forall j | 0 <= j < |ls| :: alphabet.Contains(ls[j])
    requires alphabet.Contains(ch)
    ensures var ext := ls + [ch];
            (forall j | 0 <= j < |ext| :: alphabet.Contains(ext[j])) &&
            Cipher(rs, plugboard, alphabet, ext) ==
              Cipher(rs, plugboard, alphabet, ls) + [Key(Turned(rs, alphabet, |ls| + 1), plugboard, alphabet, ch)]
  {
    CipherLast(rs, plugboard, alphabet, ls, ch);
    var whole := Cipher(rs, plugboard, alphabet, ls + [ch]);
    var front := Cipher(rs, plugboard, alphabet, ls);
    forall j | 0 <= j < |ls|
      ensures whole[j] == front[j]
    {
      CipherFront(rs, plugboard, alphabet, ls, ch, j);
    }
    Seqs.EqualSnoc(whole, front, Key(Turned(rs, alphabet, |ls| + 1), plugboard, alphabet, ch));
  }

  /** Reading one more character of a message adds it to the letters
      unless it is whitespace. */
  lemma {:induction false} LettersStep(msg: string, i: int)
    requires 0 <= i < |msg|
    ensures Letters(msg[..i + 1]) ==
              if IsWhitespace(msg[i]) then Letters(msg[..i]) else Letters(msg[..i]) + [msg[i]]
  {
    assert msg[..i + 1][..i] == msg[..i];
  }

  /** A message whose letters are all in the alphabet converts completely:
      the cipher of its letters, after one step per letter. */
  lemma {:induction false} RunCompletes(rs: seq<Rotor>, plugboard: Option<Permutation>, alphabet: Alphabet, msg: string)
    requires |rs| > 0 && AllFit(rs, alphabet) && PlugboardFits(plugboard, alphabet)
    requires forall j | 0 <= j < |Letters(msg)| :: alphabet.Contains(Letters(msg)[j])
    ensures Run(rs, plugboard, alphabet, msg) ==
              Transcript(Ok(Cipher(rs, plugboard, alphabet, Letters(msg))), Turned(rs, alphabet, |Letters(msg)|))
  {
    var ls := Letters(msg);
    assert alphabet.FirstAbsent(ls) == |ls|;
  }

  /** A message stops at its first letter outside the alphabet, after the
      steps for the letters before it. */
  lemma {:induction false} RunStopsAt(rs: seq<Rotor>, plugboard: Option<Permutation>, alphabet: Alphabet, msg: string, i: int)
    requires |rs| > 0 && AllFit(rs, alphabet) && PlugboardFits(plugboard, alphabet)
    requires 0 <= i < |msg| && !IsWhitespace(msg[i]) && !alphabet.Contains(msg[i])
    requires forall j | 0 <= j < |Letters(msg[..i])| :: alphabet.Contains(Letters(msg[..i])[j])
    ensures Run(rs, plugboard, alphabet, msg) ==
              Transcript(Err(UnknownChar(msg[i])), Turned(rs, alphabet, |Letters(msg[..i])|))
  {
    var before := Letters(msg[..i]);
    var ls := Letters(msg);
    LettersStep(msg, i);
    LettersPrefix(msg, i + 1);
    var n := |before|;
    assert ls[n] == msg[i];
    assert forall j | 0 <= j < n :: ls[j] == before[j];
    var m := alphabet.FirstAbsent(ls);
    assert m == n;
  }

  // ---------------------------------------------------------------------
  // The machine object
  // ---------------------------------------------------------------------

  /** An Enigma machine: its alphabet, slot and pawl counts, the catalogue
      of available rotors (whose settings change as the machine runs), the
      catalogue indices of the rotors in the slots, and the plugboard. */
  class Machine {
    const alphabet: Alphabet
    const numRotors: int
    const pawls: int
    const catalogue: array<Rotor>
    var slots: seq<nat>
    var plugboard: Option<Permutation>

    /** Every catalogue rotor fits the alphabet; the slots name distinct
        catalogue rotors; the plugboard, if any, permutes the alphabet. */
    ghost predicate Valid()
      reads this, catalogue
    {
      alphabet.Size() > 0 && AllFit(catalogue[..], alphabet) &&
      InCatalogue(slots, catalogue.Length) && Seqs.Distinct(slots) &&
      PlugboardFits(plugboard, alphabet)
    }

    /** The rotors in the slots, reflector first. */
    ghost function ActiveRotors(): (rs: seq<Rotor>)
      reads this, catalogue
      requires InCatalogue(slots, catalogue.Length)
      ensures |rs| == |slots|
    {
      Active(catalogue[..], slots)
    }

    /** A machine over `alpha` with the given slot and pawl counts and
        catalogue, with no rotor inserted and no plugboard. */
    constructor(alpha: Alphabet, numRotors: int, pawls: int, allRotors: array<Rotor>)
      requires 1 < numRotors && 0 <= pawls < numRotors
      requires alpha.Size() > 0 && AllFit(allRotors[..], alpha)
      ensures Valid()
      ensures alphabet == alpha && this.numRotors == numRotors && this.pawls == pawls
      ensures catalogue == allRotors && slots == [] && plugboard == None
    {
      alphabet := alpha;
      this.numRotors := numRotors;
      this.pawls := pawls;
      catalogue := allRotors;
      slots := [];
      plugboard := None;
    }

    /** getRotor: the first catalogue rotor with the given name. */
    method GetRotor(name: string) returns (r: Result<nat>)
      ensures r == FirstNamed(catalogue[..], name)
    {
      var i := 0;
      while i < catalogue.Length
        invariant 0 <= i <= catalogue.Length
        invariant forall j | 0 <= j < i :: catalogue[j].name != name
      {
        if catalogue[i].name == name {
          assert catalogue[..][i].name == name;
          return Ok(i);
        }
        i := i + 1;
      }
      assert forall j | 0 <= j < catalogue.Length :: catalogue[..][j].name != name;
      return Err(UnknownRotor(name));
    }

    /** insertRotors: fill the slots with the rotors named, checking each
        as it comes. */
    method InsertRotors(names: seq<string>) returns (outcome: Outcome)
      requires Valid()
      modifies this
      ensures Valid() && plugboard == old(plugboard)
      ensures Select(catalogue[..], names) == Selection(slots, outcome)
    {
      slots := [];
      var i := 0;
      while i < |names|
        invariant 0 <= i <= |names|
        invariant Valid() && plugboard == old(plugboard)
        invariant Select(catalogue[..], names[..i]) == Selection(slots, Pass)
      {
        var name := names[i];
        SelectNext(catalogue[..], names, i);
        var found := GetRotor(name);
        if found.Err? {
          outcome := Fail(found.error);
          FailureSticks(catalogue[..], names, i + 1);
          return;
        }
        var k := found.value;
        if k in slots {
          outcome := Fail(DuplicateRotor(name));
          FailureSticks(catalogue[..], names, i + 1);
          return;
        }
        if i == 0 && !catalogue[k].Reflecting() {
          outcome := Fail(FirstNotReflector);
          FailureSticks(catalogue[..], names, i + 1);
          return;
        }
        Fill(k);
        i := i + 1;
      }
      assert names[..i] == names;
      outcome := Pass;
    }

    /** Puts catalogue rotor k into the next free slot. */
    method Fill(k: nat)
      requires Valid() && k < catalogue.Length && k !in slots
      modifies this
      ensures Valid() && slots == old(slots) + [k] && plugboard == old(plugboard)
    {
      slots := slots + [k];
    }

    /** setRotors: check the length of the setting, then set the rotors of
        slots 1 to numRotors - 1 from its characters, left to right.  A
        character outside the alphabet stops the scan with the earlier
        rotors already set. */
    method SetRotors(setting: string) returns (outcome: Outcome)
      requires Valid()
      requires |setting| == numRotors - 1 ==> numRotors <= |slots|
      modifies catalogue
      ensures Valid()
      ensures |setting| != numRotors - 1 ==>
                outcome == Fail(WrongSettingCount) && catalogue[..] == old(catalogue[..])
      ensures |setting| == numRotors - 1 ==>
                var m := alphabet.FirstAbsent(setting);
                ActiveRotors() == WithSettings(old(ActiveRotors()), setting, m) &&
                outcome == if m == |setting| then Pass else Fail(UnknownChar(setting[m]))
      ensures OnlySlotsChanged(old(catalogue[..]), catalogue[..], slots)
    {
      if |setting| != numRotors - 1 {
        return Fail(WrongSettingCount);
      }
      ghost var rs := ActiveRotors();
      var i := 1;
      while i < numRotors
        invariant 1 <= i <= numRotors
        invariant Valid() && slots == old(slots)
        invariant alphabet.FirstAbsent(setting) >= i - 1
        invariant ActiveRotors() == WithSettings(rs, setting, i - 1)
        invariant OnlySlotsChanged(old(catalogue[..]), catalogue[..], slots)
      {
        ghost var before := catalogue[..];
        var done := SetSlot(i, setting[i - 1]);
        OnlySlotsChangedTwice(old(catalogue[..]), before, catalogue[..], slots);
        if !done {
          assert alphabet.FirstAbsent(setting) == i - 1;
          return Fail(UnknownChar(setting[i - 1]));
        }
        WithSettingsStep(rs, setting, i - 1);
        i := i + 1;
      }
      assert alphabet.FirstAbsent(setting) == |setting|;
      return Pass;
    }

    /** The body of setRotors' loop: rotor.set(ch) on the rotor of slot i,
        which leaves the rotor as it was when `ch` is not in the alphabet. */
    method SetSlot(i: nat, ch: char) returns (done: bool)
      requires Valid() && i < |slots|
      modifies catalogue
      ensures Valid() && done == alphabet.Contains(ch)
      ensures ActiveRotors() == old(ActiveRotors())[i := Settled(old(ActiveRotors())[i], ch)]
      ensures OnlySlotsChanged(old(catalogue[..]), catalogue[..], slots)
    {
      var k := slots[i];
      match catalogue[k].SetChar(ch)
      case Err(_) =>
        assert ActiveRotors() == old(ActiveRotors())[i := Settled(old(ActiveRotors())[i], ch)];
        done := false;
      case Ok(r) =>
        Place(i, r);
        done := true;
    }

    /** Puts `r` into the catalogue entry of slot i, in place of the rotor
        there. */
    method Place(i: nat, r: Rotor)
      requires Valid() && i < |slots| && Fits(r, alphabet)
      modifies catalogue
      ensures Valid() && ActiveRotors() == old(ActiveRotors())[i := r]
      ensures OnlySlotsChanged(old(catalogue[..]), catalogue[..], slots)
    {
      ActiveReplaced(catalogue[..], slots, i, r);
      ghost var before := catalogue[..];
      catalogue[slots[i]] := r;
      assert catalogue[..] == before[slots[i] := r];
    }

    /** getSettings: the settings of the rotors in slots 1 onwards, as
        characters. */
    method GetSettings() returns (s: string)
      requires Valid()
      ensures s == Readout(alphabet, ActiveRotors())
    {
      ghost var rs := ActiveRotors();
      assert AllFit(rs, alphabet);
      s := "";
      var i := 1;
      while i < |slots|
        invariant 1 <= i <= |slots| || (|slots| == 0 && i == 1)
        invariant |s| == i - 1
        invariant forall j | 0 <= j < i - 1 :: s[j] == alphabet.ToChar(rs[j + 1].setting)
      {
        s := s + [alphabet.ToChar(catalogue[slots[i]].setting)];
        i := i + 1;
      }
    }

    /** setPlugboard: replace the plugboard. */
    method SetPlugboard(p: Option<Permutation>)
      requires Valid() && PlugboardFits(p, alphabet)
      modifies this
      ensures Valid() && plugboard == p && slots == old(slots)
    {
      plugboard := p;
    }

    /** The first half of advanceRotors: the pawl scan from right to left,
        marking the rightmost rotor and, wherever a rotor is at a notch and
        its left neighbour rotates, both of them. */
    method MarkAdvancing() returns (advanced: array<bool>)
      requires Valid() && |slots| > 0
      ensures fresh(advanced) && advanced.Length == |slots|
      ensures forall j | 0 <= j < |slots| :: advanced[j] == Marked(ActiveRotors(), j)
    {
      ghost var rs := ActiveRotors();
      var n := |slots|;
      advanced := new bool[n](_ => false);
      advanced[n - 1] := true;
      var i := n - 1;
      while i > 0
        modifies advanced
        invariant 0 <= i <= n - 1 && advanced.Length == n
        invariant forall j | 0 <= j < n :: catalogue[slots[j]] == rs[j]
        invariant forall j {:trigger advanced[j]} | 0 <= j < n ::
                    advanced[j] == (j == n - 1 ||
                                    (i < j && rs[j].AtNotch() && rs[j - 1].Rotates()) ||
                                    (i <= j && j + 1 < n && rs[j + 1].AtNotch() && rs[j].Rotates()))
      {
        if catalogue[slots[i]].AtNotch() && catalogue[slots[i - 1]].Rotates() {
          advanced[i] := true;
          advanced[i - 1] := true;
        }
        i := i - 1;
      }
    }

    /** advanceRotors: mark the rotors to move, then move the marked rotors
        that can rotate, from slot 1 rightwards. */
    method AdvanceRotors()
      requires Valid() && |slots| > 0
      modifies catalogue
      ensures Valid()
      ensures ActiveRotors() == Stepped(old(ActiveRotors()))
      ensures OnlySlotsChanged(old(catalogue[..]), catalogue[..], slots)
    {
      ghost var rs := ActiveRotors();
      FitSized(alphabet, rs);
      ghost var ts := Stepped(rs);
      SteppedFit(alphabet, rs);
      var advanced := MarkAdvancing();
      ghost var marks := advanced[..];
      var n := |slots|;
      var i := 1;
      while i < n
        invariant 1 <= i <= n
        invariant Valid() && slots == old(slots)
        invariant advanced.Length == n && advanced[..] == marks
        invariant forall j | 0 <= j < n :: marks[j] == Marked(rs, j)
        invariant forall j | 0 <= j < n :: ActiveRotors()[j] == if j < i then ts[j] else rs[j]
        invariant OnlySlotsChanged(old(catalogue[..]), catalogue[..], slots)
      {
        ghost var current, before := ActiveRotors(), catalogue[..];
        assert current[i] == rs[i];
        assert advanced[i] == marks[i];
        assert ts[i] == if rs[i].Rotates() && marks[i] then rs[i].Advance() else rs[i];
        MoveSlot(i, advanced[i]);
        OnlySlotsChangedTwice(old(catalogue[..]), before, catalogue[..], slots);
        i := i + 1;
      }
      assert ActiveRotors() == ts;
    }

    /** The body of advanceRotors' second loop: the rotor of slot i
        advances when it was marked and can rotate. */
    method MoveSlot(i: nat, marked: bool)
      requires Valid() && i < |slots|
      modifies catalogue
      ensures Valid()
      ensures var r := old(ActiveRotors())[i];
        ActiveRotors() == old(ActiveRotors())[i := if r.Rotates() && marked then r.Advance() else r]
      ensures OnlySlotsChanged(old(catalogue[..]), catalogue[..], slots)
    {
      var k := slots[i];
      if catalogue[k].Rotates() && marked {
        Place(i, catalogue[k].Advance());
      }
    }

    /** convert(int): advance the rotors, then send the contact along the
        path of the new positions. */
    method Convert(c: int) returns (r: int)
      requires Valid() && |slots| > 0
      modifies catalogue
      ensures Valid()
      ensures ActiveRotors() == Stepped(old(ActiveRotors()))
      ensures OnlySlotsChanged(old(catalogue[..]), catalogue[..], slots)
      ensures r == Path(ActiveRotors(), plugboard, c)
    {
      AdvanceRotors();
      var rs := Active(catalogue[..], slots);
      FitSized(alphabet, rs);
      r := Route(rs, plugboard, c);
    }

    /** The body of convert(String)'s loop for a character that is not
        whitespace: look it up in the alphabet, which fails before any rotor
        moves when it is not there, then convert its index and turn the
        result back into a character. */
    method Press(ch: char) returns (r: Result<char>)
      requires Valid() && |slots| > 0
      modifies catalogue
      ensures Valid() && OnlySlotsChanged(old(catalogue[..]), catalogue[..], slots)
      ensures r.Ok? <==> alphabet.Contains(ch)
      ensures r.Err? ==> r.error == UnknownChar(ch) && ActiveRotors() == old(ActiveRotors())
      ensures r.Ok? ==> ActiveRotors() == Stepped(old(ActiveRotors())) &&
                        r.value == Key(ActiveRotors(), plugboard, alphabet, ch)
    {
      var code := alphabet.ToInt(ch);
      if code.Err? {
        return Err(code.error);
      }
      var encrypted := Convert(code.value);
      r := Ok(alphabet.ToChar(encrypted));
    }

    /** convert(String): skip whitespace and encipher every other character
        in turn, each after stepping the rotors; a character outside the
        alphabet stops the message with the rotors stepped once for each
        letter before it. */
    method ConvertMessage(msg: string) returns (r: Result<string>)
      requires Valid() && |slots| > 0
      modifies catalogue
      ensures Valid()
      ensures Run(old(ActiveRotors()), plugboard, alphabet, msg) == Transcript(r, ActiveRotors())
      ensures OnlySlotsChanged(old(catalogue[..]), catalogue[..], slots)
    {
      ghost var rs := ActiveRotors();
      ghost var ls: string := [];
      var result := "";
      var i := 0;
      while i < |msg|
        invariant 0 <= i <= |msg|
        invariant Valid() && slots == old(slots)
        invariant ls == Letters(msg[..i])
        invariant forall j | 0 <= j < |ls| :: alphabet.Contains(ls[j])
        invariant result == Cipher(rs, plugboard, alphabet, ls)
        invariant ActiveRotors() == Turned(rs, alphabet, |ls|)
        invariant OnlySlotsChanged(old(catalogue[..]), catalogue[..], slots)
      {
        var ch := msg[i];
        LettersStep(msg, i);
        if IsWhitespace(ch) {
          i := i + 1;
          continue;
        }
        ghost var before := catalogue[..];
        ghost var turned := ActiveRotors();
        var key := Press(ch);
        if key.Err? {
          RunStopsAt(rs, plugboard, alphabet, msg, i);
          return Err(key.error);
        }
        OnlySlotsChangedTwice(old(catalogue[..]), before, catalogue[..], slots);
        LetterStep(rs, plugboard, alphabet, ls, ch, turned, result);
        result := result + [key.value];
        ls := ls + [ch];
        i := i + 1;
      }
      assert msg[..|msg|] == msg;
      RunCompletes(rs, plugboard, alphabet, msg);
      r := Ok(result);
    }
  }
}
