/** What the stepping rule and the conversion pipeline of a machine do: which
    slots a step advances, how far each rotor moves, that a conversion is
    undone by converting again, and that no character becomes itself. */
module MachineFacts {
  import opened Wrappers
  import opened Alphabets
  import opened Permutations
  import opened Rotors
  import opened Machines

  // -------------------------------------------------------------------
  // The advance queue
  // -------------------------------------------------------------------

  /** The scan from slot numRotors-2 down to mm+1 queues exactly the slots in
      that range that meet the stepping condition. */
  lemma {:induction false} ScannedIff(m: Machine, sl: seq<Option<nat>>, s: seq<int>, mm: int)
    requires m.Catalogue() && m.Full(sl) && m.InRange(s) && 0 <= mm <= m.numRotors - 2
    ensures forall i :: i in m.Scanned(sl, s, mm) <==> mm < i <= m.numRotors - 2 && m.Queued(sl, s, i)
    decreases m.numRotors - mm
  {
    if mm < m.numRotors - 2 {
      var p := m.Scanned(sl, s, mm + 1);
      var tail := if m.Queued(sl, s, mm + 1) then [mm + 1] else [];
      ScannedIff(m, sl, s, mm + 1);
      assert m.Scanned(sl, s, mm) == p + tail;
      forall i
        ensures i in p + tail <==> mm < i <= m.numRotors - 2 && m.Queued(sl, s, i)
      {
        assert i in p + tail <==> i in p || i in tail;
      }
    }
  }

  /** The scan lists the slots it queues from the right, each once. */
  lemma {:induction false} ScannedDecreasing(m: Machine, sl: seq<Option<nat>>, s: seq<int>, mm: int)
    requires m.Catalogue() && m.Full(sl) && m.InRange(s) && 0 <= mm <= m.numRotors - 2
    ensures forall a, b | 0 <= a < b < |m.Scanned(sl, s, mm)| :: m.Scanned(sl, s, mm)[a] > m.Scanned(sl, s, mm)[b]
    decreases m.numRotors - mm
  {
    if mm < m.numRotors - 2 {
      var p := m.Scanned(sl, s, mm + 1);
      var tail := if m.Queued(sl, s, mm + 1) then [mm + 1] else [];
      ScannedDecreasing(m, sl, s, mm + 1);
      assert m.Scanned(sl, s, mm) == p + tail;
      forall a, b | 0 <= a < b < |p + tail|
        ensures (p + tail)[a] > (p + tail)[b]
      {
        if b == |p| {
          assert (p + tail)[a] == p[a] > mm + 1;
        }
      }
    }
  }

  /** A slot is queued exactly when it is strictly between the reflector and
      the last slot and is at a notch with a rotating left neighbour, or its
      right neighbour is at a notch; the queue lists each such slot once,
      from the right. */
  lemma QueueIff(m: Machine, sl: seq<Option<nat>>, s: seq<int>)
    requires m.Catalogue() && m.Full(sl) && m.InRange(s)
    ensures forall i :: i in m.Queue(sl, s) <==> 1 <= i <= m.numRotors - 2 && m.Queued(sl, s, i)
    ensures forall a, b | 0 <= a < b < |m.Queue(sl, s)| :: m.Queue(sl, s)[a] > m.Queue(sl, s)[b]
  {
    ScannedIff(m, sl, s, 0);
    ScannedDecreasing(m, sl, s, 0);
  }

  /** The double step: a middle slot at its notch moves along with the slot to
      its right whenever the slot to its left rotates, and a slot moves when
      its right neighbour is at a notch. */
  lemma DoubleStep(m: Machine, sl: seq<Option<nat>>, s: seq<int>, i: int)
    requires m.Catalogue() && m.Full(sl) && m.InRange(s) && 1 <= i <= m.numRotors - 2
    ensures m.NotchIn(sl, s, i) && m.SlotRotor(sl, i - 1).Rotates() ==> i in m.Queue(sl, s)
    ensures m.NotchIn(sl, s, i + 1) ==> i in m.Queue(sl, s)
    ensures !m.NotchIn(sl, s, i + 1) && !m.NotchIn(sl, s, i) ==> i !in m.Queue(sl, s)
  {
    QueueIff(m, sl, s);
  }

  // -------------------------------------------------------------------
  // How far each rotor moves
  // -------------------------------------------------------------------

  /** Advancing the slots `q` moves a moving catalogue rotor once per entry of
      `q` whose slot holds it, and leaves any other rotor where it was. */
  lemma {:induction false} AdvancedAt(m: Machine, sl: seq<Option<nat>>, s: seq<int>, q: seq<int>, k: int)
    requires m.Catalogue() && m.Full(sl) && m.InRange(s) && 0 <= k < |m.allRotors|
    requires forall t | 0 <= t < |q| :: 0 <= q[t] < m.numRotors
    ensures m.Advanced(sl, s, q)[k] ==
      if m.allRotors[k].kind.Moving? then Stepped(s[k], m.Hits(sl, q, k), |m.alphabet|) else s[k]
  {
    if q != [] {
      AdvancedAt(m, sl, s, q[..|q| - 1], k);
    }
  }

  /** No entry of `q` holds rotor `k`: it is counted zero times. */
  lemma {:induction false} HitsNone(m: Machine, sl: seq<Option<nat>>, q: seq<int>, k: int)
    requires forall t | 0 <= t < |q| :: 0 <= q[t] < |sl|
    requires forall t | 0 <= t < |q| :: sl[q[t]] != Some(k)
    ensures m.Hits(sl, q, k) == 0
  {
    if q != [] {
      HitsNone(m, sl, q[..|q| - 1], k);
    }
  }

  /** With a different rotor in every slot, the rotor of slot `j` is counted
      once if `q` lists `j` (without repeats) and zero times otherwise. */
  lemma {:induction false} HitsOfSlot(m: Machine, sl: seq<Option<nat>>, q: seq<int>, j: int)
    requires forall t | 0 <= t < |q| :: 0 <= q[t] < |sl|
    requires forall a, b | 0 <= a < b < |q| :: q[a] != q[b]
    requires 0 <= j < |sl| && sl[j].Some?
    requires forall t | 0 <= t < |sl| && t != j :: sl[t] != sl[j]
    ensures m.Hits(sl, q, sl[j].value) == if j in q then 1 else 0
  {
    if q != [] {
      var p := q[..|q| - 1];
      HitsOfSlot(m, sl, p, j);
      if q[|q| - 1] == j {
        assert j !in p;
      } else {
        assert j in q <==> j in p;
      }
    }
  }

  /** The slots a step advances, the last one included, each once. */
  lemma StepSlots(m: Machine, sl: seq<Option<nat>>, s: seq<int>)
    requires m.Catalogue() && m.Full(sl) && m.InRange(s)
    ensures var q := m.Queue(sl, s) + [m.numRotors - 1];
      && (forall a, b | 0 <= a < b < |q| :: q[a] != q[b])
      && (forall j :: j in q <==> j == m.numRotors - 1 || (1 <= j <= m.numRotors - 2 && m.Queued(sl, s, j)))
  {
    var p := m.Queue(sl, s);
    var q := p + [m.numRotors - 1];
    QueueIff(m, sl, s);
    forall a, b | 0 <= a < b < |q|
      ensures q[a] != q[b]
    {
      if b == |p| {
        assert q[a] == p[a] <= m.numRotors - 2;
      } else {
        assert q[a] == p[a] > p[b] == q[b];
      }
    }
    forall j
      ensures j in q <==> j == m.numRotors - 1 || (1 <= j <= m.numRotors - 2 && m.Queued(sl, s, j))
    {
      assert j in q <==> j in p || j == m.numRotors - 1;
    }
  }

  /** With a different rotor in every slot, one step moves the rotor of the
      last slot one place, moves the rotor of a middle slot one place when that
      slot meets the stepping condition, and moves nothing else; a rotor that
      is not moving never moves. */
  lemma StepOfSlot(m: Machine, sl: seq<Option<nat>>, s: seq<int>, j: int)
    requires m.Catalogue() && m.Full(sl) && m.InRange(s) && 0 <= j < m.numRotors
    requires forall a, b | 0 <= a < b < |sl| :: sl[a] != sl[b]
    ensures var k := sl[j].value;
      m.Step(sl, s)[k] ==
        if m.allRotors[k].kind.Moving? && (j == m.numRotors - 1 || (1 <= j && j <= m.numRotors - 2 && m.Queued(sl, s, j)))
        then (s[k] + 1) % |m.alphabet|
        else s[k]
  {
    var k := sl[j].value;
    var q := m.Queue(sl, s) + [m.numRotors - 1];
    StepSlots(m, sl, s);
    forall t | 0 <= t < |sl| && t != j
      ensures sl[t] != sl[j]
    {
      if t < j {
        assert sl[t] != sl[j];
      } else {
        assert sl[j] != sl[t];
      }
    }
    HitsOfSlot(m, sl, q, j);
    AdvancedAt(m, sl, s, q, k);
    assert Stepped(s[k], 1, |m.alphabet|) == (s[k] + 1) % |m.alphabet|;
  }

  /** A catalogue rotor that sits in no slot keeps its position on a step. */
  lemma StepOfIdle(m: Machine, sl: seq<Option<nat>>, s: seq<int>, k: int)
    requires m.Catalogue() && m.Full(sl) && m.InRange(s) && 0 <= k < |m.allRotors|
    requires forall j | 0 <= j < |sl| :: sl[j] != Some(k)
    ensures m.Step(sl, s)[k] == s[k]
  {
    var q := m.Queue(sl, s) + [m.numRotors - 1];
    HitsNone(m, sl, q, k);
    AdvancedAt(m, sl, s, q, k);
  }

  // -------------------------------------------------------------------
  // The conversion pipeline
  // -------------------------------------------------------------------

  /** Every rotor in slots `i` and on has a wiring that is a bijection on indices. */
  ghost predicate BijectiveFrom(m: Machine, sl: seq<Option<nat>>, i: int)
    requires m.Catalogue() && m.Full(sl)
  {
    forall j | i <= j < m.numRotors && 0 <= j :: m.SlotRotor(sl, j).permutation.IndexBijection()
  }

  /** Going back through slots `i` and on undoes going in through them. */
  lemma {:induction false} BackwardUndoesForwardFrom(m: Machine, sl: seq<Option<nat>>, s: seq<int>, g: seq<int>, c: int, i: int)
    requires m.Catalogue() && m.Full(sl) && m.InRange(s) && |g| == |m.allRotors|
    requires 0 <= i <= m.numRotors && BijectiveFrom(m, sl, i) && 0 <= c < |m.alphabet|
    ensures 0 <= m.Forward(sl, s, g, c, i) < |m.alphabet|
    ensures m.Backward(sl, s, g, m.Forward(sl, s, g, c, i), i) == c
    decreases m.numRotors - i
  {
    if i < m.numRotors {
      var r := m.SlotRotor(sl, i);
      var k := sl[i].value;
      var x := m.Forward(sl, s, g, c, i + 1);
      BackwardUndoesForwardFrom(m, sl, s, g, c, i + 1);
      r.BackwardUndoesForward(s[k], g[k], x);
    }
  }

  /** Going in through slots `i` and on undoes going back through them. */
  lemma {:induction false} ForwardUndoesBackwardFrom(m: Machine, sl: seq<Option<nat>>, s: seq<int>, g: seq<int>, c: int, i: int)
    requires m.Catalogue() && m.Full(sl) && m.InRange(s) && |g| == |m.allRotors|
    requires 0 <= i <= m.numRotors && BijectiveFrom(m, sl, i) && 0 <= c < |m.alphabet|
    ensures 0 <= m.Backward(sl, s, g, c, i) < |m.alphabet|
    ensures m.Forward(sl, s, g, m.Backward(sl, s, g, c, i), i) == c
    decreases m.numRotors - i
  {
    if i < m.numRotors {
      var r := m.SlotRotor(sl, i);
      var k := sl[i].value;
      var b := r.BackwardAt(s[k], g[k], c);
      ForwardUndoesBackwardFrom(m, sl, s, g, b, i + 1);
      r.ForwardUndoesBackward(s[k], g[k], c);
    }
  }

  /** The wirings that make a machine reciprocal: a plugboard and a reflector
      that are their own inverses, and rotors whose wirings are bijections. */
  ghost predicate Reciprocal(m: Machine, sl: seq<Option<nat>>, pb: Permutation?)
    requires m.Catalogue() && m.Full(sl) && pb != null && pb.Valid() && pb.alphabet == m.alphabet
  {
    && pb.IndexInvolution()
    && m.SlotRotor(sl, 0).permutation.IndexInvolution()
    && BijectiveFrom(m, sl, 1)
  }

  /** Converting twice in the same state gives back the index converted:
      the same machine set up the same way decrypts what it encrypts. */
  lemma PipelineInvolution(m: Machine, sl: seq<Option<nat>>, pb: Permutation?, s: seq<int>, g: seq<int>, c: int)
    requires m.Routable(sl, pb, s, g) && Reciprocal(m, sl, pb) && 0 <= c < |m.alphabet|
    ensures m.PipelineAt(sl, pb, s, g, m.PipelineAt(sl, pb, s, g, c)) == c
  {
    var r := m.SlotRotor(sl, 0);
    var k := sl[0].value;
    var p := pb.PermuteIndex(c);
    BackwardUndoesForwardFrom(m, sl, s, g, p, 1);
    var f := m.Forward(sl, s, g, p, 1);
    var refl := r.ForwardAt(s[k], g[k], f);
    assert m.Forward(sl, s, g, p, 0) == refl;
    var b := m.Backward(sl, s, g, refl, 1);
    var out := pb.PermuteIndex(b);
    assert m.PipelineAt(sl, pb, s, g, c) == out;
    ForwardUndoesBackwardFrom(m, sl, s, g, refl, 1);
    assert pb.PermuteIndex(out) == b;
    assert m.Forward(sl, s, g, b, 1) == refl;
    r.ForwardInvolution(s[k], g[k], f);
    assert m.Forward(sl, s, g, pb.PermuteIndex(out), 0) == f;
    assert m.Backward(sl, s, g, f, 1) == p;
    assert pb.PermuteIndex(p) == c;
  }

  /** With a reflector that moves every index, no index is converted to itself. */
  lemma PipelineMoves(m: Machine, sl: seq<Option<nat>>, pb: Permutation?, s: seq<int>, g: seq<int>, c: int)
    requires m.Routable(sl, pb, s, g) && Reciprocal(m, sl, pb) && 0 <= c < |m.alphabet|
    requires m.SlotRotor(sl, 0).permutation.IndexDerangement()
    ensures m.PipelineAt(sl, pb, s, g, c) != c
  {
    var r := m.SlotRotor(sl, 0);
    var k := sl[0].value;
    var p := pb.PermuteIndex(c);
    BackwardUndoesForwardFrom(m, sl, s, g, p, 1);
    var f := m.Forward(sl, s, g, p, 1);
    var refl := r.ForwardAt(s[k], g[k], f);
    var b := m.Backward(sl, s, g, refl, 1);
    ForwardUndoesBackwardFrom(m, sl, s, g, refl, 1);
    r.ForwardMoves(s[k], g[k], f);
  }

  /** A character of the alphabet comes back from the converted character's
      conversion in the same state: converting the output of a message again,
      from the same starting positions, gives the message back. */
  lemma CharRoundTrip(m: Machine, sl: seq<Option<nat>>, pb: Permutation?, s: seq<int>, g: seq<int>, ch: char)
    requires m.Routable(sl, pb, s, g) && Reciprocal(m, sl, pb)
    requires Distinct(m.alphabet) && ch in m.alphabet
    ensures var out := m.alphabet[m.PipelineAt(sl, pb, s, g, ToInt(m.alphabet, ch))];
      m.alphabet[m.PipelineAt(sl, pb, s, g, ToInt(m.alphabet, out))] == ch
  {
    ToIntOfMember(m.alphabet, ch);
    var c := ToInt(m.alphabet, ch);
    var r := m.PipelineAt(sl, pb, s, g, c);
    assert ToInt(m.alphabet, m.alphabet[r]) == r;
    PipelineInvolution(m, sl, pb, s, g, c);
  }

  /** Converting a message's output again from the same starting positions
      (as `convert` on a string does, one step before each character) gives
      the message back. */
  lemma MessageRoundTrip(m: Machine, sl: seq<Option<nat>>, pb: Permutation?, s0: seq<int>, g: seq<int>, msg: seq<char>, out: seq<char>)
    requires m.Routable(sl, pb, s0, g) && Reciprocal(m, sl, pb) && Distinct(m.alphabet)
    requires forall i | 0 <= i < |msg| :: msg[i] in m.alphabet
    requires |out| == |msg|
    requires forall i {:trigger out[i]} | 0 <= i < |msg| ::
      out[i] == m.alphabet[m.PipelineAt(sl, pb, m.StepN(sl, s0, i + 1), g, ToInt(m.alphabet, msg[i]))]
    ensures forall i {:trigger msg[i]} | 0 <= i < |out| ::
      msg[i] == m.alphabet[m.PipelineAt(sl, pb, m.StepN(sl, s0, i + 1), g, ToInt(m.alphabet, out[i]))]
  {
    forall i | 0 <= i < |out|
      ensures msg[i] == m.alphabet[m.PipelineAt(sl, pb, m.StepN(sl, s0, i + 1), g, ToInt(m.alphabet, out[i]))]
    {
      CharRoundTrip(m, sl, pb, m.StepN(sl, s0, i + 1), g, msg[i]);
    }
  }

  /** With a reflector that moves every index, no character of a message over
      distinct alphabet characters is converted to itself. */
  lemma MessageMoves(m: Machine, sl: seq<Option<nat>>, pb: Permutation?, s0: seq<int>, g: seq<int>, msg: seq<char>, out: seq<char>)
    requires m.Routable(sl, pb, s0, g) && Reciprocal(m, sl, pb) && Distinct(m.alphabet)
    requires m.SlotRotor(sl, 0).permutation.IndexDerangement()
    requires forall i | 0 <= i < |msg| :: msg[i] in m.alphabet
    requires |out| == |msg|
    requires forall i {:trigger out[i]} | 0 <= i < |msg| ::
      out[i] == m.alphabet[m.PipelineAt(sl, pb, m.StepN(sl, s0, i + 1), g, ToInt(m.alphabet, msg[i]))]
    ensures forall i | 0 <= i < |out| :: out[i] != msg[i]
  {
    forall i | 0 <= i < |out|
      ensures out[i] != msg[i]
    {
      var s := m.StepN(sl, s0, i + 1);
      var c := ToInt(m.alphabet, msg[i]);
      ToIntOfMember(m.alphabet, msg[i]);
      PipelineMoves(m, sl, pb, s, g, c);
      var r := m.PipelineAt(sl, pb, s, g, c);
      DistinctAt(m.alphabet, r, c);
    }
  }
}
