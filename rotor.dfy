/** Rotors.  Only the moving variant's source is part of this model; the base
    rotor, the fixed rotor and the reflector are described by the uses the
    machine makes of them, with one class and a kind tag standing for the
    three Java classes.  The contact conversion is an assumption of the model:
    the wiring shifted by the position and the ring setting. */
module Rotors {
  import opened Wrappers
  import opened Alphabets
  import opened Permutations

  /** Which Java class the rotor is an instance of; a moving rotor carries its
      notch string. */
  datatype Kind = Reflector | Fixed | Moving(notches: seq<char>)

  /** The position reached from `pos` after `k` single steps on a wheel of `n` positions. */
  function Stepped(pos: int, k: nat, n: int): (r: int)
    requires n > 0
    ensures 0 <= pos < n ==> 0 <= r < n
  {
    if k == 0 then pos else (Stepped(pos, k - 1, n) + 1) % n
  }

  /** `k` single steps move the position `k` places, modulo the size. */
  lemma {:induction false} SteppedIsSum(pos: int, k: nat, n: int)
    requires n > 0 && 0 <= pos < n
    ensures Stepped(pos, k, n) == (pos + k) % n
  {
    if k == 0 {
      ModOfInRange(pos, n);
    } else {
      SteppedIsSum(pos, k - 1, n);
      ModOfSum(pos + k - 1, 1, n);
    }
  }

  /** After as many steps as the wheel has positions, it is back where it started. */
  lemma FullTurn(pos: int, n: int)
    requires n > 0 && 0 <= pos < n
    ensures Stepped(pos, n, n) == pos
  {
    SteppedIsSum(pos, n, n);
    ModOfDecomposition(pos + n, n, 1, pos);
  }

  /** Shifting an index by the ring offset and back, modulo `n`, returns it. */
  lemma Unshift(y: int, pos: int, ring: int, n: int)
    requires 0 <= y < n
    ensures ((y - pos + ring) % n + pos - ring) % n == y
    ensures ((y + pos - ring) % n - pos + ring) % n == y
  {
    ModOfSum(y - pos + ring, pos - ring, n);
    ModOfSum(y + pos - ring, -pos + ring, n);
    ModOfInRange(y, n);
  }

  /** The same, through the permutation's `wrap`. */
  lemma WrapUnshift(p: Permutation, y: int, pos: int, ring: int)
    requires |p.alphabet| > 0 && 0 <= y < |p.alphabet|
    ensures p.Wrap(p.Wrap(y - pos + ring) + pos - ring) == y
    ensures p.Wrap(p.Wrap(y + pos - ring) - pos + ring) == y
  {
    Unshift(y, pos, ring, |p.alphabet|);
    p.WrapIsMod(y - pos + ring);
    p.WrapIsMod(p.Wrap(y - pos + ring) + pos - ring);
    p.WrapIsMod(y + pos - ring);
    p.WrapIsMod(p.Wrap(y + pos - ring) - pos + ring);
  }

  class Rotor {
    const name: seq<char>
    const kind: Kind
    const permutation: Permutation
    /** The position: the index of the character showing in the window. */
    var setting: int
    /** The ring setting, as an index. */
    var ring: int

    ghost predicate Valid()
      reads this
    {
      && permutation.Valid()
      && |permutation.alphabet| > 0
      && 0 <= setting < |permutation.alphabet|
      && 0 <= ring < |permutation.alphabet|
    }

    /** A rotor named `name` wired by `permutation`, at position 0. */
    constructor (name: seq<char>, kind: Kind, permutation: Permutation)
      requires permutation.Valid() && |permutation.alphabet| > 0
      ensures this.name == name && this.kind == kind && this.permutation == permutation
      ensures setting == 0 && ring == 0 && Valid()
    {
      this.name := name;
      this.kind := kind;
      this.permutation := permutation;
      setting := 0;
      ring := 0;
    }

    function Alphabet(): seq<char> {
      permutation.alphabet
    }

    /** Only a moving rotor rotates. */
    function Rotates(): (b: bool)
      ensures b <==> kind.Moving?
    {
      kind.Moving?
    }

    /** Whether the rotor, at position `pos`, shows one of its notch characters;
        never for a reflector or a fixed rotor. */
    function NotchAt(pos: int): (b: bool)
      requires 0 <= pos < |Alphabet()|
      ensures b <==> kind.Moving? && exists k :: 0 <= k < |kind.notches| && kind.notches[k] == Alphabet()[pos]
    {
      kind.Moving? && Alphabets.Contains(kind.notches, ToChar(Alphabet(), pos))
    }

    /** Whether the character showing in the window is a notch (`atNotch`). */
    function AtNotch(): (b: bool)
      reads this`setting
      requires 0 <= setting < |Alphabet()|
      ensures b <==> kind.Moving? && Alphabet()[setting] in kind.notches
    {
      NotchAt(setting)
    }

    /** Puts the rotor at position `posn`. */
    method Set(posn: int)
      requires Valid() && 0 <= posn < |Alphabet()|
      modifies this`setting
      ensures Valid() && setting == posn
    {
      setting := posn;
    }

    /** Puts the rotor at the position of character `c`. */
    method SetChar(c: char)
      requires Valid()
      modifies this`setting
      ensures Valid() && setting == ToInt(Alphabet(), c)
      ensures c in Alphabet() ==> Alphabet()[setting] == c
    {
      if c in Alphabet() {
        ToIntOfMember(Alphabet(), c);
      }
      setting := ToInt(Alphabet(), c);
    }

    /** Sets the ring to the index of character `c`. */
    method SetRingSetting(c: char)
      requires Valid()
      modifies this`ring
      ensures Valid() && ring == ToInt(Alphabet(), c)
      ensures c in Alphabet() ==> Alphabet()[ring] == c
    {
      if c in Alphabet() {
        ToIntOfMember(Alphabet(), c);
      }
      ring := ToInt(Alphabet(), c);
    }

    /** A moving rotor steps one position, wrapping at the end; the other kinds
        stay put.  Only the position changes. */
    method Advance()
      requires Valid()
      modifies this`setting
      ensures Valid()
      ensures setting == if kind.Moving? then (old(setting) + 1) % |Alphabet()| else old(setting)
    {
      if kind.Moving? {
        permutation.WrapIsMod(setting + 1);
        Set(permutation.Wrap(setting + 1));
      }
    }

    /** The contact reached from contact `c` entering on the right, at position `pos`. */
    function ForwardAt(pos: int, ring: int, c: int): (r: int)
      requires permutation.Valid() && |Alphabet()| > 0
      ensures 0 <= r < |Alphabet()|
    {
      permutation.Wrap(permutation.PermuteIndex(permutation.Wrap(c + pos - ring)) - pos + ring)
    }

    /** The contact reached from contact `c` entering on the left, at position `pos`. */
    function BackwardAt(pos: int, ring: int, c: int): (r: int)
      requires permutation.Valid() && |Alphabet()| > 0
      ensures 0 <= r < |Alphabet()|
    {
      permutation.Wrap(permutation.InverseIndex(permutation.Wrap(c + pos - ring)) - pos + ring)
    }

    /** With a wiring that is a bijection on indices, the way back undoes
        the way in, at every position. */
    lemma BackwardUndoesForward(pos: int, ring: int, c: int)
      requires permutation.Valid() && |Alphabet()| > 0
      requires permutation.IndexBijection()
      requires 0 <= c < |Alphabet()|
      ensures BackwardAt(pos, ring, ForwardAt(pos, ring, c)) == c
    {
      var x := permutation.Wrap(c + pos - ring);
      var y := permutation.PermuteIndex(x);
      var f := ForwardAt(pos, ring, c);
      assert f == permutation.Wrap(y - pos + ring);
      assert permutation.Wrap(f + pos - ring) == y by {
        WrapUnshift(permutation, y, pos, ring);
      }
      assert permutation.InverseIndex(y) == x;
      assert permutation.Wrap(x - pos + ring) == c by {
        WrapUnshift(permutation, c, pos, ring);
      }
    }

    /** With a wiring that is a bijection on indices, the way in undoes
        the way back, at every position. */
    lemma ForwardUndoesBackward(pos: int, ring: int, c: int)
      requires permutation.Valid() && |Alphabet()| > 0
      requires permutation.IndexBijection()
      requires 0 <= c < |Alphabet()|
      ensures ForwardAt(pos, ring, BackwardAt(pos, ring, c)) == c
    {
      var x := permutation.Wrap(c + pos - ring);
      var y := permutation.InverseIndex(x);
      var b := BackwardAt(pos, ring, c);
      assert b == permutation.Wrap(y - pos + ring);
      assert permutation.Wrap(b + pos - ring) == y by {
        WrapUnshift(permutation, y, pos, ring);
      }
      assert permutation.PermuteIndex(y) == x;
      assert permutation.Wrap(x - pos + ring) == c by {
        WrapUnshift(permutation, c, pos, ring);
      }
    }

    /** With a wiring that is its own inverse on indices, going in twice is the
        identity, at every position: what a reflector does. */
    lemma ForwardInvolution(pos: int, ring: int, c: int)
      requires permutation.Valid() && |Alphabet()| > 0
      requires permutation.IndexInvolution()
      requires 0 <= c < |Alphabet()|
      ensures ForwardAt(pos, ring, ForwardAt(pos, ring, c)) == c
    {
      var x := permutation.Wrap(c + pos - ring);
      var y := permutation.PermuteIndex(x);
      var f := ForwardAt(pos, ring, c);
      assert f == permutation.Wrap(y - pos + ring);
      assert permutation.Wrap(f + pos - ring) == y by {
        WrapUnshift(permutation, y, pos, ring);
      }
      assert permutation.PermuteIndex(y) == x;
      assert permutation.Wrap(x - pos + ring) == c by {
        WrapUnshift(permutation, c, pos, ring);
      }
    }

    /** With a wiring that moves every index, the contact reached always
        differs from the contact entered, at every position. */
    lemma ForwardMoves(pos: int, ring: int, c: int)
      requires permutation.Valid() && |Alphabet()| > 0
      requires permutation.IndexDerangement()
      requires 0 <= c < |Alphabet()|
      ensures ForwardAt(pos, ring, c) != c
    {
      var x := permutation.Wrap(c + pos - ring);
      var y := permutation.PermuteIndex(x);
      assert permutation.Wrap(ForwardAt(pos, ring, c) + pos - ring) == y by {
        WrapUnshift(permutation, y, pos, ring);
      }
      assert y != x;
    }
  }
}
