/** Rotors: a permutation of the alphabet turned by a current setting.  The
    variants (moving, fixed, reflector) are a closed set; only a moving rotor
    has notches and advances. */
module Rotors {
  import opened Results
  import opened Alphabets
  import opened Permutations
  import Seqs

  /** The rotor variants.  A moving rotor carries the indices of its notch
      positions. */
  datatype Kind = Moving(notches: set<int>) | Fixed | Reflector

  /** A rotor: its name, its variant, its wiring in the 0 setting, and its
      current setting (rotational offset). */
  datatype Rotor = Rotor(name: string, kind: Kind, perm: Permutation, setting: int) {

    /** The size of the rotor's alphabet. */
    function Size(): nat {
      perm.Size()
    }

    /** The wiring only mentions alphabet indices and the setting is one of
        them. */
    predicate Valid() {
      perm.Valid() && 0 <= setting < Size()
    }

    /** Whether the rotor can rotate: only moving rotors can, and a rotor
        that cannot is left as it is by Advance. */
    predicate Rotates(): (b: bool)
      ensures b <==> kind.Moving?
      ensures !b ==> Advance() == this
    {
      kind.Moving?
    }

    /** Whether the rotor is a reflector; a reflector neither rotates nor
        stands at a notch. */
    predicate Reflecting(): (b: bool)
      ensures b <==> kind.Reflector?
      ensures b ==> !Rotates() && !AtNotch()
    {
      kind.Reflector?
    }

    /** Whether the current setting is one of the notch positions; never
        for a rotor without notches, and only for one that rotates. */
    predicate AtNotch(): (b: bool)
      ensures b <==> kind.Moving? && setting in kind.notches
      ensures b ==> Rotates()
    {
      kind.Moving? && setting in kind.notches
    }

    /** The rotor turned one position: a moving rotor's setting becomes the
        wrapped successor, every other rotor stays as it is. */
    function Advance(): (r: Rotor)
      requires kind.Moving? ==> Size() > 0
      ensures r.name == name && r.kind == kind && r.perm == perm
      ensures kind.Moving? ==> 0 <= r.setting < Size() && r.setting == (setting + 1) % Size()
      ensures !kind.Moving? ==> r.setting == setting
    {
      if kind.Moving? then
        WrapIsModulo(perm, setting + 1);
        this.(setting := perm.Wrap(setting + 1))
      else
        this
    }

    /** The rotor set to the first position of character `ch` of its
        alphabet; fails when `ch` is not in it. */
    function SetChar(ch: char): (r: Result<Rotor>)
      ensures r.Ok? <==> perm.alphabet.Contains(ch)
      ensures r.Ok? ==> r.value.name == name && r.value.kind == kind && r.value.perm == perm
      ensures r.Ok? ==> 0 <= r.value.setting < Size() && perm.alphabet.ToChar(r.value.setting) == ch
      ensures r.Ok? ==> ch !in perm.alphabet.chars[..r.value.setting]
      ensures r.Err? ==> r.error == UnknownChar(ch)
    {
      match perm.alphabet.ToInt(ch)
      case Err(e) => Err(e)
      case Ok(index) => Ok(this.(setting := index))
    }

    /** The contact reached from entry contact `p` going towards the
        reflector: shift by the setting, permute, shift back and wrap. */
    function ConvertForward(p: int): (r: int)
      requires Size() > 0
      ensures 0 <= r < Size()
    {
      perm.Wrap(perm.Permute(p + setting) - setting)
    }

    /** The contact reached from exit contact `c` coming back from the
        reflector: the same shifts around the inverse permutation. */
    function ConvertBackward(c: int): (r: int)
      requires Size() > 0
      ensures 0 <= r < Size()
    {
      perm.Wrap(perm.Invert(c + setting) - setting)
    }

    /** The rotor after `k` calls of Advance. */
    function AdvanceTimes(k: nat): (r: Rotor)
      requires kind.Moving? ==> Size() > 0
      ensures r.name == name && r.kind == kind && r.perm == perm
    {
      if k == 0 then this else AdvanceTimes(k - 1).Advance()
    }
  }

  /** Advancing a moving rotor k times adds k to its setting, modulo the
      size. */
  lemma {:induction false} AdvanceTimesSetting(r: Rotor, k: nat)
    requires r.kind.Moving? && r.Valid()
    ensures r.AdvanceTimes(k).setting == (r.setting + k) % r.Size()
  {
    var n := r.Size();
    if k == 0 {
      ModUnique(r.setting, 0, r.setting, n);
    } else {
      AdvanceTimesSetting(r, k - 1);
      ModShift(r.setting + k - 1, 1, n);
    }
  }

  /** As many advances as the alphabet has characters bring a moving rotor
      back to where it started. */
  lemma {:induction false} FullTurn(r: Rotor)
    requires r.kind.Moving? && r.Valid()
    ensures r.AdvanceTimes(r.Size()) == r
  {
    AdvanceTimesSetting(r, r.Size());
    ModUnique(r.setting + r.Size(), 1, r.setting, r.Size());
  }

  /** A moving rotor built from an empty notch string is never at a notch,
      however far it advances. */
  lemma {:induction false} NoNotchesNeverAtNotch(r: Rotor, k: nat)
    requires r.kind == Moving({}) && r.Size() > 0
    ensures !r.AdvanceTimes(k).AtNotch()
  {
  }

  /** Wrapping before adding d is wrapping after adding it. */
  lemma {:induction false} WrapShift(p: Permutation, a: int, d: int)
    requires p.Size() > 0
    ensures p.Wrap(p.Wrap(a) + d) == p.Wrap(a + d)
  {
    WrapIsModulo(p, a);
    WrapIsModulo(p, p.Wrap(a) + d);
    WrapIsModulo(p, a + d);
    ModShift(a, d, p.Size());
  }

  /** Wrapping b and then adding d lands where b + d wraps to. */
  lemma {:induction false} WrapBack(p: Permutation, a: int, b: int, d: int)
    requires p.Size() > 0 && b + d == a
    ensures p.Wrap(p.Wrap(b) + d) == p.Wrap(a)
  {
    WrapShift(p, b, d);
  }

  /** Shifting an index of the alphabet by -s, wrapping and shifting back
      by s reaches the index one started from; and the other way round. */
  lemma {:induction false} ShiftAndBack(p: Permutation, a: int, s: int)
    requires p.Size() > 0 && 0 <= a < p.Size()
    ensures p.Wrap(p.Wrap(a - s) + s) == a
    ensures p.Wrap(p.Wrap(a + s) - s) == a
  {
    WrapInRange(p, a);
    WrapBack(p, a, a - s, s);
    WrapBack(p, a, a + s, -s);
  }

  /** permute and invert only look at their argument modulo the size. */
  lemma {:induction false} ScanOfWrap(p: Permutation, a: int)
    requires p.Size() > 0
    ensures p.Permute(p.Wrap(a)) == p.Permute(a)
    ensures p.Invert(p.Wrap(a)) == p.Invert(a)
  {
    WrapInRange(p, p.Wrap(a));
  }

  /** Inverting what the forward conversion reached, shifted by the
      setting, recovers the shifted entry contact. */
  lemma {:induction false} InvertAfterForward(p: Permutation, x: int, s: int, y: int)
    requires p.Size() > 0 && p.Valid() && Disjoint(p.cycles)
    requires y == p.Wrap(p.Permute(x + s) - s)
    ensures p.Invert(y + s) == p.Wrap(x + s)
  {
    var a := p.Permute(x + s);
    var u := y + s;
    assert p.Wrap(u) == a by { ShiftAndBack(p, a, s); }
    assert p.Invert(p.Wrap(u)) == p.Invert(u) by { ScanOfWrap(p, u); }
    assert p.Invert(a) == p.Wrap(x + s) by { InvertUndoesPermute(p, x + s); }
  }

  /** Permuting what the backward conversion reached, shifted by the
      setting, recovers the shifted exit contact. */
  lemma {:induction false} PermuteAfterBackward(p: Permutation, x: int, s: int, y: int)
    requires p.Size() > 0 && p.Valid() && Disjoint(p.cycles)
    requires y == p.Wrap(p.Invert(x + s) - s)
    ensures p.Permute(y + s) == p.Wrap(x + s)
  {
    var b := p.Invert(x + s);
    var u := y + s;
    assert p.Wrap(u) == b by { ShiftAndBack(p, b, s); }
    assert p.Permute(p.Wrap(u)) == p.Permute(u) by { ScanOfWrap(p, u); }
    assert p.Permute(b) == p.Wrap(x + s) by { PermuteUndoesInvert(p, x + s); }
  }

  /** With cycles of at most two entries, permuting again what the forward
      conversion reached, shifted by the setting, recovers the shifted entry
      contact. */
  lemma {:induction false} PermuteAfterForward(p: Permutation, x: int, s: int, y: int)
    requires p.Size() > 0 && p.Valid() && Disjoint(p.cycles) && p.Involutive()
    requires y == p.Wrap(p.Permute(x + s) - s)
    ensures p.Permute(y + s) == p.Wrap(x + s)
  {
    InvertAfterForward(p, x, s, y);
    InvolutionUndoesItself(p, y + s);
  }

  /** A contact that equals the wrapped x + s, shifted back by s and
      wrapped, is the wrapped x. */
  lemma {:induction false} Unshift(p: Permutation, v: int, x: int, s: int)
    requires p.Size() > 0 && v == p.Wrap(x + s)
    ensures p.Wrap(v - s) == p.Wrap(x)
  {
    WrapShift(p, x + s, -s);
    assert x + s + -s == x;
  }

  /** Going back through a rotor undoes going forward through it, provided
      its cycles are disjoint. */
  lemma {:induction false} BackwardUndoesForward(r: Rotor, x: int)
    requires r.Size() > 0 && r.perm.Valid() && Disjoint(r.perm.cycles)
    ensures r.ConvertBackward(r.ConvertForward(x)) == r.perm.Wrap(x)
  {
    var y := r.ConvertForward(x);
    InvertAfterForward(r.perm, x, r.setting, y);
    Unshift(r.perm, r.perm.Invert(y + r.setting), x, r.setting);
  }

  /** Going forward through a rotor undoes going back through it, provided
      its cycles are disjoint. */
  lemma {:induction false} ForwardUndoesBackward(r: Rotor, x: int)
    requires r.Size() > 0 && r.perm.Valid() && Disjoint(r.perm.cycles)
    ensures r.ConvertForward(r.ConvertBackward(x)) == r.perm.Wrap(x)
  {
    var y := r.ConvertBackward(x);
    PermuteAfterBackward(r.perm, x, r.setting, y);
    Unshift(r.perm, r.perm.Permute(y + r.setting), x, r.setting);
  }

  /** Going forward twice through a rotor whose cycles have at most two
      entries comes back to the starting contact: a reflector sends the
      signal back the way it came. */
  lemma {:induction false} ReflectionInvolution(r: Rotor, x: int)
    requires r.Size() > 0 && r.perm.Valid() && Disjoint(r.perm.cycles) && r.perm.Involutive()
    ensures r.ConvertForward(r.ConvertForward(x)) == r.perm.Wrap(x)
  {
    var y := r.ConvertForward(x);
    PermuteAfterForward(r.perm, x, r.setting, y);
    Unshift(r.perm, r.perm.Permute(y + r.setting), x, r.setting);
  }

  /** A rotor whose permutation is a derangement moves every contact, at
      any setting. */
  lemma {:induction false} NoFixedContact(r: Rotor, x: int)
    requires r.Size() > 0 && r.perm.Valid() && Disjoint(r.perm.cycles) && 0 <= x < r.Size()
    requires r.perm.Derangement()
    ensures r.ConvertForward(x) != x
  {
    var p, s := r.perm, r.setting;
    DerangementMeansNoFixedPoint(p);
    var w := p.Wrap(x + s);
    var a := p.Permute(x + s);
    assert a == p.Permute(w) by { ScanOfWrap(p, x + s); }
    assert a != w;
    if r.ConvertForward(x) == x {
      assert p.Wrap(p.Wrap(a - s) + s) == a by { ShiftAndBack(p, a, s); }
      assert false;
    }
  }

  /** The alphabet indices of the characters of `s`, each of which is in
      the alphabet: the notch set a MovingRotor builds from its notch
      string. */
  function NotchSet(a: Alphabet, s: string): set<int>
    requires forall i | 0 <= i < |s| :: a.Contains(s[i])
  {
    set i | 0 <= i < |s| :: a.ToInt(s[i]).value
  }

  /** Reading one more notch character adds its index. */
  lemma {:induction false} NotchSetStep(a: Alphabet, s: string, n: nat)
    requires n < |s| && forall i | 0 <= i <= n :: a.Contains(s[i])
    ensures NotchSet(a, s[..n + 1]) == NotchSet(a, s[..n]) + {a.ToInt(s[n]).value}
  {
    var longer, shorter := s[..n + 1], s[..n];
    assert longer[n] == s[n];
    forall x | x in NotchSet(a, longer) ensures x in NotchSet(a, shorter) + {a.ToInt(s[n]).value} {
      var i :| 0 <= i < |longer| && a.ToInt(longer[i]).value == x;
      if i < n {
        assert shorter[i] == longer[i];
      }
    }
    forall x | x in NotchSet(a, shorter) ensures x in NotchSet(a, longer) {
      var i :| 0 <= i < |shorter| && a.ToInt(shorter[i]).value == x;
      assert longer[i] == shorter[i];
    }
  }

  /** The source's MovingRotor constructor: collects the indices of the
      notch characters in a set; the rotor starts in its 0 setting.  Fails
      at the first notch character outside the alphabet. */
  method NewMovingRotor(name: string, perm: Permutation, notches: string) returns (r: Result<Rotor>)
    ensures r.Ok? <==> forall i | 0 <= i < |notches| :: perm.alphabet.Contains(notches[i])
    ensures r.Ok? ==> r.value == Rotor(name, Moving(NotchSet(perm.alphabet, notches)), perm, 0)
    ensures r.Err? ==> r.error == UnknownChar(notches[perm.alphabet.FirstAbsent(notches)])
  {
    var notchSet: set<int> := {};
    var i := 0;
    while i < |notches|
      invariant 0 <= i <= |notches|
      invariant forall m | 0 <= m < i :: perm.alphabet.Contains(notches[m])
      invariant notchSet == NotchSet(perm.alphabet, notches[..i])
    {
      var idx := perm.alphabet.ToInt(notches[i]);
      if idx.Err? {
        assert perm.alphabet.FirstAbsent(notches) == i;
        return Err(idx.error);
      }
      NotchSetStep(perm.alphabet, notches, i);
      notchSet := notchSet + {idx.value};
      i := i + 1;
    }
    assert notches[..i] == notches;
    r := Ok(Rotor(name, Moving(notchSet), perm, 0));
  }
}
