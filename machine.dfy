/** The machine: a catalogue of rotors, the slots that hold some of them, the
    plugboard, the stepping rule and the per-character conversion.  A slot holds
    the catalogue index of its rotor, so two slots naming the same catalogue
    entry share one rotor object, as two entries of the active-rotor array do.

    The stepping rule and the conversion are functions of the slot contents
    `sl`, the plugboard `pb`, the positions `s` and the rings `g` of the
    catalogue rotors; the methods pass the machine's current state to them. */
module Machines {
  import opened Wrappers
  import opened Alphabets
  import opened Permutations
  import opened Rotors

  /** The index of the first occurrence of `r` in `rs`; |rs| when there is none. */
  function Find(rs: seq<Rotor>, r: Rotor): (k: nat)
    ensures k <= |rs| && (k < |rs| ==> rs[k] == r)
  {
    if rs == [] || rs[0] == r then 0 else 1 + Find(rs[1..], r)
  }

  /** In a sequence without repetitions, `Find` gives back each element's own index. */
  lemma {:induction false} FindDistinct(rs: seq<Rotor>, k: int)
    requires forall a, b | 0 <= a < b < |rs| :: rs[a] != rs[b]
    requires 0 <= k < |rs|
    ensures Find(rs, rs[k]) == k
  {
    if k > 0 && rs[0] != rs[k] {
      FindDistinct(rs[1..], k - 1);
    }
  }

  /** The position of each rotor of `rs`, in order. */
  function SettingsOf(rs: seq<Rotor>): (s: seq<int>)
    reads rs`setting
    ensures |s| == |rs| && forall k | 0 <= k < |rs| :: s[k] == rs[k].setting
  {
    if rs == [] then [] else SettingsOf(rs[..|rs| - 1]) + [rs[|rs| - 1].setting]
  }

  /** The ring setting of each rotor of `rs`, in order. */
  function RingsOf(rs: seq<Rotor>): (g: seq<int>)
    reads rs`ring
    ensures |g| == |rs| && forall k | 0 <= k < |rs| :: g[k] == rs[k].ring
  {
    if rs == [] then [] else RingsOf(rs[..|rs| - 1]) + [rs[|rs| - 1].ring]
  }

  class Machine {
    const alphabet: seq<char>
    const numRotors: int
    const pawls: int
    /** The available rotors, each its own object. */
    const allRotors: seq<Rotor>
    /** Slot i (0 is the reflector's) holds the catalogue index of its rotor,
        or None while nothing has been inserted there. */
    var slots: seq<Option<nat>>
    var plugboard: Permutation?

    /** A machine over `alphabet` with `numRotors` empty slots, `pawls` pawls and
        the catalogue `allRotors`; no plugboard yet. */
    constructor (alphabet: seq<char>, numRotors: int, pawls: int, allRotors: seq<Rotor>)
      requires 1 < numRotors && 0 <= pawls < numRotors && |alphabet| > 0
      requires forall k | 0 <= k < |allRotors| :: allRotors[k].Alphabet() == alphabet && allRotors[k].Valid()
      requires forall a, b | 0 <= a < b < |allRotors| :: allRotors[a] != allRotors[b]
      ensures this.alphabet == alphabet && this.numRotors == numRotors && this.pawls == pawls
      ensures this.allRotors == allRotors && plugboard == null
      ensures Valid() && forall j | 0 <= j < |slots| :: slots[j].None?
    {
      this.alphabet := alphabet;
      this.numRotors := numRotors;
      this.pawls := pawls;
      this.allRotors := allRotors;
      slots := seq(numRotors, _ => None);
      plugboard := null;
      forall k | 0 <= k < |allRotors|
        ensures Find(allRotors, allRotors[k]) == k
      {
        FindDistinct(allRotors, k);
      }
    }

    // -------------------------------------------------------------------
    // Invariants
    // -------------------------------------------------------------------

    /** The sizes and the catalogue agree with each other, and every wiring
        has an entry for each character. */
    ghost predicate Catalogue() {
      && 1 < numRotors
      && 0 <= pawls < numRotors
      && |alphabet| > 0
      && (forall k | 0 <= k < |allRotors| :: allRotors[k].Alphabet() == alphabet && allRotors[k].permutation.Valid())
      && (forall k | 0 <= k < |allRotors| :: Find(allRotors, allRotors[k]) == k)
    }

    /** `sl` has an entry per slot, each naming a catalogue rotor or nothing. */
    predicate Slots(sl: seq<Option<nat>>) {
      |sl| == numRotors && forall j | 0 <= j < |sl| :: sl[j].Some? ==> sl[j].value < |allRotors|
    }

    /** Every slot of `sl` holds a rotor. */
    predicate Full(sl: seq<Option<nat>>) {
      Slots(sl) && forall j | 0 <= j < |sl| :: sl[j].Some?
    }

    /** The catalogue, slot contents `sl` and plugboard `pb` fit together. */
    ghost predicate Setup(sl: seq<Option<nat>>, pb: Permutation?) {
      && Catalogue()
      && Slots(sl)
      && (pb != null ==> pb.Valid() && pb.alphabet == alphabet)
    }

    ghost predicate Valid()
      reads this, allRotors
    {
      Setup(slots, plugboard) && InRange(Positions()) && InRange(Rings())
    }

    /** `Valid`, with the ranges stated rotor by rotor: the form the loops
        that set positions and rings carry from one slot to the next. */
    ghost predicate Fitted()
      reads this, allRotors
    {
      && Setup(slots, plugboard)
      && (forall k | 0 <= k < |allRotors| :: 0 <= allRotors[k].setting < |alphabet|)
      && (forall k | 0 <= k < |allRotors| :: 0 <= allRotors[k].ring < |alphabet|)
    }

    /** Ready to convert: rotors in every slot and a plugboard. */
    ghost predicate Ready()
      reads this, allRotors
    {
      Valid() && Full(slots) && plugboard != null
    }

    /** The position of every catalogue rotor, by catalogue index. */
    function Positions(): (s: seq<int>)
      reads allRotors`setting
      ensures |s| == |allRotors|
      ensures forall k | 0 <= k < |s| :: s[k] == allRotors[k].setting
    {
      SettingsOf(allRotors)
    }

    /** The ring setting of every catalogue rotor, by catalogue index. */
    function Rings(): (g: seq<int>)
      reads allRotors`ring
      ensures |g| == |allRotors|
      ensures forall k | 0 <= k < |g| :: g[k] == allRotors[k].ring
    {
      RingsOf(allRotors)
    }

    /** A position for every catalogue rotor. */
    predicate InRange(s: seq<int>) {
      |s| == |allRotors| && forall k | 0 <= k < |s| :: 0 <= s[k] < |alphabet|
    }

    // -------------------------------------------------------------------
    // Stepping
    // -------------------------------------------------------------------

    /** The rotor in slot `j`. */
    function SlotRotor(sl: seq<Option<nat>>, j: int): (r: Rotor)
      requires Catalogue() && Full(sl) && 0 <= j < numRotors
      ensures r.Alphabet() == alphabet && r.permutation.Valid()
    {
      allRotors[sl[j].value]
    }

    /** Whether the rotor in slot `j` is at a notch when the catalogue is at positions `s`. */
    function NotchIn(sl: seq<Option<nat>>, s: seq<int>, j: int): bool
      requires Catalogue() && Full(sl) && InRange(s) && 0 <= j < numRotors
    {
      SlotRotor(sl, j).NotchAt(s[sl[j].value])
    }

    /** Whether slot `i` joins the advance queue: it is at a notch and the rotor
        to its left rotates, or the rotor to its right is at a notch. */
    function Queued(sl: seq<Option<nat>>, s: seq<int>, i: int): (b: bool)
      requires Catalogue() && Full(sl) && InRange(s) && 1 <= i <= numRotors - 2
      ensures b ==> NotchIn(sl, s, i) || NotchIn(sl, s, i + 1)
      ensures NotchIn(sl, s, i + 1) ==> b
    {
      (NotchIn(sl, s, i) && SlotRotor(sl, i - 1).Rotates()) || NotchIn(sl, s, i + 1)
    }

    /** The queue after scanning slots numRotors-2 down to m+1, in scan order. */
    function Scanned(sl: seq<Option<nat>>, s: seq<int>, m: int): (q: seq<int>)
      requires Catalogue() && Full(sl) && InRange(s) && 0 <= m <= numRotors - 2
      ensures forall t | 0 <= t < |q| :: m < q[t] <= numRotors - 2
      decreases numRotors - m
    {
      if m == numRotors - 2 then []
      else Scanned(sl, s, m + 1) + (if Queued(sl, s, m + 1) then [m + 1] else [])
    }

    /** The slots to advance before the last one, decided from positions `s` alone. */
    function Queue(sl: seq<Option<nat>>, s: seq<int>): (q: seq<int>)
      requires Catalogue() && Full(sl) && InRange(s)
      ensures forall t | 0 <= t < |q| :: 1 <= q[t] <= numRotors - 2
    {
      Scanned(sl, s, 0)
    }

    /** How many entries of the slot list `q` hold catalogue rotor `k`. */
    function Hits(sl: seq<Option<nat>>, q: seq<int>, k: int): nat
      requires forall t | 0 <= t < |q| :: 0 <= q[t] < |sl|
    {
      if q == [] then 0
      else Hits(sl, q[..|q| - 1], k) + (if sl[q[|q| - 1]] == Some(k) then 1 else 0)
    }

    /** The positions after the rotor in slot `j` advances once from `s`: a
        moving rotor moves one place on, any other stays put. */
    function AdvanceOne(sl: seq<Option<nat>>, s: seq<int>, j: int): (r: seq<int>)
      requires Catalogue() && Full(sl) && InRange(s) && 0 <= j < numRotors
      ensures InRange(r)
    {
      var k := sl[j].value;
      if allRotors[k].kind.Moving? then s[k := (s[k] + 1) % |alphabet|] else s
    }

    /** The positions after the rotors of slots `q` advance, one after another. */
    function Advanced(sl: seq<Option<nat>>, s: seq<int>, q: seq<int>): (r: seq<int>)
      requires Catalogue() && Full(sl) && InRange(s)
      requires forall t | 0 <= t < |q| :: 0 <= q[t] < numRotors
      ensures InRange(r)
    {
      if q == [] then s else AdvanceOne(sl, Advanced(sl, s, q[..|q| - 1]), q[|q| - 1])
    }

    /** Advancing the slots `q + [j]` is advancing `q`, then `j`. */
    lemma AdvancedSnoc(sl: seq<Option<nat>>, s: seq<int>, q: seq<int>, j: int)
      requires Catalogue() && Full(sl) && InRange(s)
      requires forall t | 0 <= t < |q| :: 0 <= q[t] < numRotors
      requires 0 <= j < numRotors
      ensures Advanced(sl, s, q + [j]) == AdvanceOne(sl, Advanced(sl, s, q), j)
    {
      assert (q + [j])[..|q|] == q;
    }

    /** The positions after one step from `s`: the queued slots advance, then the last slot. */
    function Step(sl: seq<Option<nat>>, s: seq<int>): (r: seq<int>)
      requires Catalogue() && Full(sl) && InRange(s)
      ensures InRange(r)
    {
      Advanced(sl, s, Queue(sl, s) + [numRotors - 1])
    }

    /** The positions after `n` steps from `s`. */
    function StepN(sl: seq<Option<nat>>, s: seq<int>, n: nat): (r: seq<int>)
      requires Catalogue() && Full(sl) && InRange(s)
      ensures InRange(r)
    {
      if n == 0 then s else Step(sl, StepN(sl, s, n - 1))
    }

    // -------------------------------------------------------------------
    // The conversion pipeline
    // -------------------------------------------------------------------

    /** The contact reached from `c` through slots numRotors-1 down to `i`,
        each converting forward at its position in `s` and ring in `g`. */
    function Forward(sl: seq<Option<nat>>, s: seq<int>, g: seq<int>, c: int, i: int): (r: int)
      requires Catalogue() && Full(sl) && InRange(s) && |g| == |allRotors| && 0 <= i <= numRotors
      ensures i < numRotors || 0 <= c < |alphabet| ==> 0 <= r < |alphabet|
      decreases numRotors - i
    {
      if i == numRotors then c
      else SlotRotor(sl, i).ForwardAt(s[sl[i].value], g[sl[i].value], Forward(sl, s, g, c, i + 1))
    }

    /** The contact reached from `c` through slots `i` up to numRotors-1,
        each converting backward at its position in `s` and ring in `g`. */
    function Backward(sl: seq<Option<nat>>, s: seq<int>, g: seq<int>, c: int, i: int): (r: int)
      requires Catalogue() && Full(sl) && InRange(s) && |g| == |allRotors| && 0 <= i <= numRotors
      ensures i < numRotors || 0 <= c < |alphabet| ==> 0 <= r < |alphabet|
      decreases numRotors - i
    {
      if i == numRotors then c
      else Backward(sl, s, g, SlotRotor(sl, i).BackwardAt(s[sl[i].value], g[sl[i].value], c), i + 1)
    }

    /** A conversion can be computed with slot contents `sl`, plugboard `pb`,
        positions `s` and rings `g`. */
    ghost predicate Routable(sl: seq<Option<nat>>, pb: Permutation?, s: seq<int>, g: seq<int>) {
      && Catalogue() && Full(sl) && InRange(s) && |g| == |allRotors|
      && pb != null && pb.Valid() && pb.alphabet == alphabet
    }

    /** The character index that `c` becomes: plugboard, forward through every
        slot down to the reflector, backward through slots 1 up to the last,
        plugboard again. */
    function PipelineAt(sl: seq<Option<nat>>, pb: Permutation?, s: seq<int>, g: seq<int>, c: int): (r: int)
      requires Routable(sl, pb, s, g)
      ensures 0 <= r < |alphabet|
    {
      pb.PermuteIndex(Backward(sl, s, g, Forward(sl, s, g, pb.PermuteIndex(c), 0), 1))
    }

    // -------------------------------------------------------------------
    // Converting
    // -------------------------------------------------------------------

    /** The slots to advance, decided before any rotor moves (the first loop of `convert`). */
    method QueueSlots() returns (advance: seq<int>)
      requires Ready()
      ensures InRange(Positions()) && advance == Queue(slots, Positions())
    {
      ghost var s0 := Positions();
      ghost var sl := slots;
      advance := [];
      var i := numRotors - 2;
      while i > 0
        invariant 0 <= i <= numRotors - 2
        invariant advance == Scanned(sl, s0, i)
      {
        var left, here, right := allRotors[slots[i - 1].value], allRotors[slots[i].value], allRotors[slots[i + 1].value];
        assert here.Valid() && right.Valid();
        if (here.AtNotch() && left.Rotates()) || right.AtNotch() {
          advance := advance + [i];
        }
        i := i - 1;
      }
    }

    /** Advances the rotor in slot `j`; every other rotor keeps its position. */
    method AdvanceSlot(j: int)
      requires Ready() && 0 <= j < numRotors
      modifies allRotors`setting
      ensures Ready()
      ensures InRange(old(Positions())) && Positions() == AdvanceOne(slots, old(Positions()), j)
    {
      ghost var s0 := Positions();
      var k := slots[j].value;
      var r := allRotors[k];
      assert r.Valid();
      r.Advance();
      forall t | 0 <= t < |allRotors| && t != k
        ensures allRotors[t].Valid() && Positions()[t] == s0[t]
      {
        assert allRotors[t] != r;
      }
      assert Positions() == AdvanceOne(slots, s0, j);
    }

    /** Advances the rotors of slots `q`, one after another (the second loop of `convert`). */
    method AdvanceQueued(q: seq<int>)
      requires Ready() && forall t | 0 <= t < |q| :: 0 <= q[t] < numRotors
      modifies allRotors`setting
      ensures Ready()
      ensures InRange(old(Positions())) && Positions() == Advanced(slots, old(Positions()), q)
    {
      ghost var s0 := Positions();
      ghost var sl := slots;
      for t := 0 to |q|
        invariant Ready()
        invariant Positions() == Advanced(sl, s0, q[..t])
      {
        ghost var done := q[..t];
        AdvanceSlot(q[t]);
        ghost var next := q[..t + 1];
        assert next[..t] == done && next[t] == q[t];
      }
      assert q[..|q|] == q;
    }

    /** Advances the queued slots' rotors, then the last slot's rotor. */
    method StepRotors()
      requires Ready()
      modifies allRotors`setting
      ensures Ready()
      ensures InRange(old(Positions())) && Positions() == Step(slots, old(Positions()))
    {
      ghost var s0 := Positions();
      assert InRange(s0);
      var advance := QueueSlots();
      AdvanceQueued(advance);
      AdvanceSlot(numRotors - 1);
      AdvancedSnoc(slots, s0, advance, numRotors - 1);
    }

    /** Sends index `c` forward through slots numRotors-1 down to 0. */
    method ForwardPass(c: int, ghost sl: seq<Option<nat>>, ghost s: seq<int>, ghost g: seq<int>) returns (x: int)
      requires Catalogue() && Full(sl) && sl == slots && InRange(s) && s == Positions() && g == Rings()
      ensures x == Forward(sl, s, g, c, 0)
    {
      x := c;
      var j := numRotors - 1;
      while j >= 0
        invariant -1 <= j < numRotors
        invariant x == Forward(sl, s, g, c, j + 1)
      {
        var r := allRotors[slots[j].value];
        x := r.ForwardAt(r.setting, r.ring, x);
        j := j - 1;
      }
    }

    /** Sends index `c` backward through slots 1 up to numRotors-1. */
    method BackwardPass(c: int, ghost sl: seq<Option<nat>>, ghost s: seq<int>, ghost g: seq<int>) returns (x: int)
      requires Catalogue() && Full(sl) && sl == slots && InRange(s) && s == Positions() && g == Rings()
      ensures x == Backward(sl, s, g, c, 1)
    {
      x := c;
      var j := 1;
      while j < numRotors
        invariant 1 <= j <= numRotors
        invariant Backward(sl, s, g, x, j) == Backward(sl, s, g, c, 1)
      {
        var r := allRotors[slots[j].value];
        x := r.BackwardAt(r.setting, r.ring, x);
        j := j + 1;
      }
    }

    /** Converts character index `c` after first stepping the rotors. */
    method Convert(c: int) returns (r: int)
      requires Ready()
      modifies allRotors`setting
      ensures Ready() && InRange(old(Positions())) && Rings() == old(Rings())
      ensures Positions() == Step(slots, old(Positions()))
      ensures r == PipelineAt(slots, plugboard, Positions(), Rings(), c)
    {
      var plugChange := plugboard.PermuteIndex(c);
      StepRotors();
      ghost var sl, s, g := slots, Positions(), Rings();
      plugChange := ForwardPass(plugChange, sl, s, g);
      plugChange := BackwardPass(plugChange, sl, s, g);
      r := plugboard.PermuteIndex(plugChange);
    }
    // -------------------------------------------------------------------
    // Inserting rotors, setting positions, rings and the plugboard
    // -------------------------------------------------------------------

    /** The catalogue index of the last of the first `n` catalogue rotors named `name`. */
    function LastNamed(name: seq<char>, n: nat): (r: Option<nat>)
      requires n <= |allRotors|
      ensures r.Some? ==> r.value < n && allRotors[r.value].name == name
    {
      if n == 0 then None
      else if allRotors[n - 1].name == name then Some(n - 1)
      else LastNamed(name, n - 1)
    }

    /** `LastNamed` finds the last match, and finds nothing only when nothing matches. */
    lemma {:induction false} LastNamedIsLast(name: seq<char>, n: nat)
      requires n <= |allRotors|
      ensures LastNamed(name, n).Some? ==>
        forall k | LastNamed(name, n).value < k < n :: allRotors[k].name != name
      ensures LastNamed(name, n).None? <==> forall k | 0 <= k < n :: allRotors[k].name != name
    {
      if n > 0 {
        LastNamedIsLast(name, n - 1);
      }
    }

    /** The slot contents once slots 0..i-1 were looked up by `names`: a name
        that matches no catalogue rotor leaves its slot as it was. */
    function Inserted(before: seq<Option<nat>>, names: seq<seq<char>>, i: nat): (after: seq<Option<nat>>)
      requires i <= |names| && i <= |before|
      ensures |after| == |before|
    {
      seq(|before|, t requires 0 <= t < |before| =>
        if t < i && LastNamed(names[t], |allRotors|).Some? then LastNamed(names[t], |allRotors|) else before[t])
    }

    /** Slot `j` of `sl` holds a moving rotor. */
    predicate MovingIn(sl: seq<Option<nat>>, j: int)
      requires Slots(sl) && 0 <= j < numRotors
    {
      sl[j].Some? && allRotors[sl[j].value].kind.Moving?
    }

    /** Slot `j` of `sl` holds a reflector. */
    predicate ReflectorIn(sl: seq<Option<nat>>, j: int)
      requires Slots(sl) && 0 <= j < numRotors
    {
      sl[j].Some? && allRotors[sl[j].value].kind.Reflector?
    }

    /** Fills the slots with the catalogue rotors named by `names`, then checks
        that the last slot holds a moving rotor and slot 0 a reflector. */
    method InsertRotors(names: seq<seq<char>>) returns (o: Outcome)
      requires Valid()
      modifies this`slots
      ensures Valid()
      ensures |names| != numRotors ==> o == Fail(SizeMismatch) && slots == old(slots)
      ensures |names| == numRotors ==> slots == Inserted(old(slots), names, |names|)
      ensures |names| == numRotors ==>
        (o == Pass <==> MovingIn(slots, numRotors - 1) && ReflectorIn(slots, 0))
      ensures |names| == numRotors && !MovingIn(slots, numRotors - 1) ==> o == Fail(FinalNotMoving)
      ensures |names| == numRotors && MovingIn(slots, numRotors - 1) && !ReflectorIn(slots, 0) ==>
        o == Fail(FirstNotReflector)
    {
      if |names| != numRotors {
        return Fail(SizeMismatch);
      }
      var active := slots;
      for i := 0 to |names|
        invariant active == Inserted(old(slots), names, i)
      {
        for j := 0 to |allRotors|
          invariant |active| == numRotors
          invariant forall t | 0 <= t < numRotors && t != i :: active[t] == Inserted(old(slots), names, i)[t]
          invariant active[i] == if LastNamed(names[i], j).Some? then LastNamed(names[i], j) else old(slots)[i]
        {
          if names[i] == allRotors[j].name {
            active := active[i := Some(j)];
          }
        }
        assert active == Inserted(old(slots), names, i + 1);
      }
      assert Slots(active);
      slots := active;
      if !(slots[numRotors - 1].Some? && allRotors[slots[numRotors - 1].value].kind.Moving?) {
        return Fail(FinalNotMoving);
      }
      if !(slots[0].Some? && allRotors[slots[0].value].kind.Reflector?) {
        return Fail(FirstNotReflector);
      }
      return Pass;
    }

    /** Every character of `setting` is in the alphabet. */
    predicate AllIn(setting: seq<char>) {
      forall t | 0 <= t < |setting| :: Contains(alphabet, setting[t])
    }

    /** How many characters of a setting string of length `limit` find a slot
        of `sl`, counting on from `i`: the count stops where the string ends,
        where the slots end, or at an empty slot. */
    function Reach(sl: seq<Option<nat>>, limit: nat, i: nat): (m: nat)
      requires i <= limit
      ensures i <= m <= limit && (m == i || m < |sl|)
      ensures forall t | i < t <= m :: t < |sl| && sl[t].Some?
      ensures m < limit ==> m + 1 >= |sl| || sl[m + 1].None?
      decreases limit - i
    {
      if i == limit || i + 1 >= |sl| || sl[i + 1].None? then i else Reach(sl, limit, i + 1)
    }

    /** `Reach` counts on from `i` exactly to `m` when slots i+1..m hold rotors
        and the count stops after m. */
    lemma {:induction false} ReachStops(sl: seq<Option<nat>>, limit: nat, i: nat, m: nat)
      requires i <= m <= limit
      requires forall t | i < t <= m :: t < |sl| && sl[t].Some?
      requires m == limit || m + 1 >= |sl| || sl[m + 1].None?
      ensures Reach(sl, limit, i) == m
      decreases m - i
    {
      if i < m {
        assert i + 1 < |sl| && sl[i + 1].Some?;
        ReachStops(sl, limit, i + 1, m);
      }
    }

    /** Sequence `s` (positions or rings, by catalogue index) after the rotors
        in slots 1..m of `sl` took the indices of characters c[0..m-1], in that order. */
    function Assigned(sl: seq<Option<nat>>, s: seq<int>, c: seq<char>, m: nat): (r: seq<int>)
      requires Slots(sl) && |s| == |allRotors| && m <= |c| && m < numRotors
      requires forall t | 1 <= t <= m :: sl[t].Some?
      ensures |r| == |allRotors|
      ensures InRange(s) ==> InRange(r)
    {
      if m == 0 then s else Assigned(sl, s, c, m - 1)[sl[m].value := ToInt(alphabet, c[m - 1])]
    }

    /** A rotor in none of slots 1..m keeps its entry. */
    lemma {:induction false} AssignedUntouched(sl: seq<Option<nat>>, s: seq<int>, c: seq<char>, m: nat, k: int)
      requires Slots(sl) && |s| == |allRotors| && m <= |c| && m < numRotors
      requires forall t | 1 <= t <= m :: sl[t].Some?
      requires 0 <= k < |allRotors| && forall t | 1 <= t <= m :: sl[t] != Some(k)
      ensures Assigned(sl, s, c, m)[k] == s[k]
    {
      if m > 0 {
        AssignedUntouched(sl, s, c, m - 1, k);
      }
    }

    /** The rotor of slot t takes c[t-1] unless a later slot among 1..m holds it too. */
    lemma {:induction false} AssignedLatest(sl: seq<Option<nat>>, s: seq<int>, c: seq<char>, m: nat, t: int)
      requires Slots(sl) && |s| == |allRotors| && m <= |c| && m < numRotors
      requires forall u | 1 <= u <= m :: sl[u].Some?
      requires 1 <= t <= m && forall u | t < u <= m :: sl[u] != sl[t]
      ensures Assigned(sl, s, c, m)[sl[t].value] == ToInt(alphabet, c[t - 1])
    {
      if t < m {
        AssignedLatest(sl, s, c, m - 1, t);
      }
    }

    /** Puts the rotor in slot `j` at the position of character `ch`. */
    method SetSlot(j: int, ch: char)
      requires Fitted() && 0 <= j < numRotors && slots[j].Some?
      modifies allRotors`setting
      ensures Fitted() && Rings() == old(Rings())
      ensures Positions() == old(Positions())[slots[j].value := ToInt(alphabet, ch)]
    {
      ghost var s0 := Positions();
      ghost var g0 := Rings();
      var k := slots[j].value;
      var r := allRotors[k];
      assert r.Valid();
      r.SetChar(ch);
      forall t | 0 <= t < |allRotors| && t != k
        ensures allRotors[t].Valid() && Positions()[t] == s0[t]
      {
        assert allRotors[t] != r;
      }
      assert Positions() == s0[k := ToInt(alphabet, ch)];
      assert Rings() == g0;
    }

    /** Sets the ring of the rotor in slot `j` to the index of character `ch`. */
    method SetRingSlot(j: int, ch: char)
      requires Fitted() && 0 <= j < numRotors && slots[j].Some?
      modifies allRotors`ring
      ensures Fitted() && Positions() == old(Positions())
      ensures Rings() == old(Rings())[slots[j].value := ToInt(alphabet, ch)]
    {
      ghost var s0 := Positions();
      ghost var g0 := Rings();
      var k := slots[j].value;
      var r := allRotors[k];
      assert r.Valid();
      r.SetRingSetting(ch);
      forall t | 0 <= t < |allRotors| && t != k
        ensures allRotors[t].Valid() && Rings()[t] == g0[t]
      {
        assert allRotors[t] != r;
      }
      assert Rings() == g0[k := ToInt(alphabet, ch)];
      assert Positions() == s0;
    }

    /** Whether every character of `setting` is in the alphabet (the first loop of `setRotors`). */
    method InAlphabet(setting: seq<char>) returns (b: bool)
      requires Catalogue()
      ensures b == AllIn(setting)
    {
      for i := 0 to |setting|
        invariant forall t | 0 <= t < i :: Contains(alphabet, setting[t])
      {
        if !Contains(alphabet, setting[i]) {
          return false;
        }
      }
      return true;
    }

    /** Sets slots 1, 2, ... to the characters of `setting`: nothing moves unless
        every character is in the alphabet; a character without a slot (past
        the last slot, or an empty slot) is a crash after the earlier ones were set. */
    method SetRotors(setting: seq<char>) returns (o: Outcome)
      requires Valid()
      modifies allRotors`setting
      ensures Valid()
      ensures !AllIn(setting) ==> o == Fail(NotInAlphabet) && Positions() == old(Positions())
      ensures AllIn(setting) ==>
        Positions() == Assigned(slots, old(Positions()), setting, Reach(slots, |setting|, 0))
      ensures AllIn(setting) ==>
        (o == Pass <==> Reach(slots, |setting|, 0) == |setting|) && (o == Pass || o == Fail(Crash))
    {
      var ok := InAlphabet(setting);
      if !ok {
        return Fail(NotInAlphabet);
      }
      ghost var s0 := Positions();
      ghost var s := s0;
      ghost var sl := slots;
      var i := 0;
      while i < |setting|
        invariant 0 <= i <= |setting| && i < numRotors
        invariant forall t | 1 <= t <= i :: sl[t].Some?
        invariant Fitted() && slots == sl
        invariant Positions() == s
        invariant s == Assigned(sl, s0, setting, i)
      {
        if i + 1 >= numRotors || slots[i + 1].None? {
          ReachStops(sl, |setting|, 0, i);
          return Fail(Crash);
        }
        SetSlot(i + 1, setting[i]);
        s := s[sl[i + 1].value := ToInt(alphabet, setting[i])];
        i := i + 1;
      }
      ReachStops(sl, |setting|, 0, i);
      return Pass;
    }

    /** Sets the ring of slot i+1 to the index of ring[i] for every slot but
        the reflector's, crashing at the first empty slot. */
    method SetRings(ring: seq<char>) returns (o: Outcome)
      requires Valid() && |ring| == numRotors - 1
      modifies allRotors`ring
      ensures Valid() && Positions() == old(Positions())
      ensures o == Pass <==> forall t | 1 <= t < numRotors :: slots[t].Some?
      ensures o == Pass ==> Rings() == Assigned(slots, old(Rings()), ring, numRotors - 1)
      ensures o == Pass || o == Fail(Crash)
    {
      ghost var g0 := Rings();
      ghost var g := g0;
      ghost var sl := slots;
      var i := 0;
      while i < numRotors - 1
        invariant 0 <= i <= numRotors - 1
        invariant forall t | 1 <= t <= i :: sl[t].Some?
        invariant Fitted() && slots == sl
        invariant Rings() == g
        invariant g == Assigned(sl, g0, ring, i)
      {
        if slots[i + 1].None? {
          return Fail(Crash);
        }
        SetRingSlot(i + 1, ring[i]);
        g := g[sl[i + 1].value := ToInt(alphabet, ring[i])];
        i := i + 1;
      }
      return Pass;
    }

    /** Installs plugboard `p`. */
    method SetPlugboard(p: Permutation)
      requires Valid() && p.Valid() && p.alphabet == alphabet
      modifies this`plugboard
      ensures Valid() && plugboard == p
    {
      plugboard := p;
    }

    /** Converts every character of `msg` in turn, each after one step: character
        i is converted with the positions reached after i + 1 steps. */
    method ConvertString(msg: seq<char>) returns (out: seq<char>)
      requires Ready()
      modifies allRotors`setting
      ensures Ready() && InRange(old(Positions())) && Rings() == old(Rings())
      ensures |out| == |msg| && Positions() == StepN(slots, old(Positions()), |msg|)
      ensures forall i {:trigger out[i]} | 0 <= i < |msg| ::
        out[i] == alphabet[PipelineAt(slots, plugboard, StepN(slots, old(Positions()), i + 1), Rings(), ToInt(alphabet, msg[i]))]
    {
      assert InRange(Positions());
      ghost var s0 := Positions();
      ghost var g := Rings();
      out := msg;
      for i := 0 to |msg|
        invariant Ready() && Rings() == g && |out| == |msg|
        invariant Positions() == StepN(slots, s0, i)
        invariant forall t {:trigger out[t]} | 0 <= t < i ::
          out[t] == alphabet[PipelineAt(slots, plugboard, StepN(slots, s0, t + 1), g, ToInt(alphabet, msg[t]))]
      {
        var r := Convert(ToInt(alphabet, msg[i]));
        out := out[i := ToChar(alphabet, r)];
      }
    }
  }
}
