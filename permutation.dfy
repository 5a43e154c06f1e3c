/** A permutation of the characters of an alphabet, built from cycle notation
    ("(cccc) (cc) ...").  The source fills a hash map character by character;
    the class below does the same with a `map<char, char>` field, and the
    functions after the splitting helpers say what that map ends up holding. */
module Permutations {
  import opened Wrappers
  import opened Alphabets

  // ---------------------------------------------------------------------
  // Splitting a string on single spaces, as Java's String.split(" ") does
  // ---------------------------------------------------------------------

  /** The pieces between single spaces, empty pieces included. */
  function Pieces(s: seq<char>): (ps: seq<seq<char>>)
    ensures |ps| >= 1
    ensures forall k | 0 <= k < |ps| :: ' ' !in ps[k]
    ensures forall k | 0 <= k < |ps| :: forall c | c in ps[k] :: c in s
    decreases |s|
  {
    if |s| == 0 then [[]]
    else if s[0] == ' ' then [[]] + Pieces(s[1..])
    else
      var rest := Pieces(s[1..]);
      [[s[0]] + rest[0]] + rest[1..]
  }

  /** A string without a space is a single piece. */
  lemma {:induction false} PiecesWithoutSpace(s: seq<char>)
    requires ' ' !in s
    ensures Pieces(s) == [s]
  {
    if |s| > 0 {
      PiecesWithoutSpace(s[1..]);
      assert [s[0]] + s[1..] == s;
    }
  }

  /** The piece before the first space, then the pieces of the rest. */
  lemma {:induction false} PiecesAtSpace(a: seq<char>, b: seq<char>)
    requires ' ' !in a
    ensures Pieces(a + [' '] + b) == [a] + Pieces(b)
  {
    if |a| == 0 {
      assert a + [' '] + b == [' '] + b;
      assert ([' '] + b)[1..] == b;
    } else {
      PiecesAtSpace(a[1..], b);
      assert (a + [' '] + b)[1..] == a[1..] + [' '] + b;
      assert [a[0]] + a[1..] == a;
    }
  }

  function DropTrailingEmpty(ps: seq<seq<char>>): (qs: seq<seq<char>>)
    ensures |qs| <= |ps| && qs == ps[..|qs|]
    ensures |qs| > 0 ==> qs[|qs| - 1] != []
    ensures forall k :: |qs| <= k < |ps| ==> ps[k] == []
  {
    if |ps| > 0 && ps[|ps| - 1] == [] then DropTrailingEmpty(ps[..|ps| - 1]) else ps
  }

  /** Java's split: a string without a space is its own only piece; otherwise
      the pieces between spaces, trailing empty pieces removed. */
  function Split(s: seq<char>): (ps: seq<seq<char>>)
    ensures forall k | 0 <= k < |ps| :: ' ' !in ps[k]
    ensures forall k | 0 <= k < |ps| :: forall c | c in ps[k] :: c in s
  {
    if ' ' !in s then [s] else DropTrailingEmpty(Pieces(s))
  }

  /** The cycle string with every parenthesis replaced by a space. */
  function Cleaned(cycles: seq<char>): (s: seq<char>)
    ensures |s| == |cycles|
    ensures forall i :: 0 <= i < |s| ==> s[i] == (if cycles[i] in "()" then ' ' else cycles[i])
  {
    seq(|cycles|, i requires 0 <= i < |cycles| => if cycles[i] in "()" then ' ' else cycles[i])
  }

  // ---------------------------------------------------------------------
  // What the constructor builds
  // ---------------------------------------------------------------------

  /** The character that `cycle[j]` maps to: the next one, wrapping at the end. */
  function Successor(cycle: seq<char>, j: nat): char
    requires j < |cycle|
  {
    if j == |cycle| - 1 then cycle[0] else cycle[j + 1]
  }

  /** `m` after the first `k` entries of `cycle` were put into it. */
  function AddCyclePrefix(m: map<char, char>, cycle: seq<char>, k: nat): map<char, char>
    requires k <= |cycle|
  {
    if k == 0 then m
    else AddCyclePrefix(m, cycle, k - 1)[cycle[k - 1] := Successor(cycle, k - 1)]
  }

  /** The map after every cycle of `ts` was added, in order, to an empty map. */
  function CycleMap(ts: seq<seq<char>>): map<char, char>
  {
    if ts == [] then map[]
    else AddCyclePrefix(CycleMap(ts[..|ts| - 1]), ts[|ts| - 1], |ts[|ts| - 1]|)
  }

  /** `m` after the first `k` alphabet characters missing from it were mapped to themselves. */
  function FillPrefix(m: map<char, char>, alphabet: seq<char>, k: nat): map<char, char>
    requires k <= |alphabet|
  {
    if k == 0 then m
    else
      var m' := FillPrefix(m, alphabet, k - 1);
      if alphabet[k - 1] in m' then m' else m'[alphabet[k - 1] := alphabet[k - 1]]
  }

  /** The cycles the constructor reads from its cycle string. */
  function Tokens(cycles: seq<char>): (ts: seq<seq<char>>)
    ensures forall k | 0 <= k < |ts| :: ' ' !in ts[k] && '(' !in ts[k] && ')' !in ts[k]
  {
    Split(Cleaned(cycles))
  }

  /** The map a permutation built from `cycles` over `alphabet` holds. */
  function Build(cycles: seq<char>, alphabet: seq<char>): map<char, char>
  {
    FillPrefix(CycleMap(Tokens(cycles)), alphabet, |alphabet|)
  }

  // ---------------------------------------------------------------------
  // Reference notions
  // ---------------------------------------------------------------------

  /** The characters of a cycle, as a set. */
  function Chars(t: seq<char>): set<char> {
    set x | x in t
  }

  /** Every cycle lists characters of the alphabet, none twice, and no two
      cycles share a character. */
  ghost predicate DisjointCycles(ts: seq<seq<char>>, alphabet: seq<char>) {
    && (forall i :: 0 <= i < |ts| ==> Distinct(ts[i]) && Chars(ts[i]) <= Chars(alphabet))
    && (forall i, j :: 0 <= i < j < |ts| ==> Chars(ts[i]) !! Chars(ts[j]))
  }

  /** Some cycle of `ts` lists `c`. */
  ghost predicate Listed(ts: seq<seq<char>>, c: char) {
    exists i :: 0 <= i < |ts| && c in ts[i]
  }

  /** The first alphabet character from position `k` on whose image under
      `m` is `c`, or `c` itself when there is none. */
  function Preimage(m: map<char, char>, alphabet: seq<char>, c: char, k: nat): (d: char)
    requires forall x :: x in alphabet ==> x in m
    requires k <= |alphabet|
    decreases |alphabet| - k
    ensures (exists j :: k <= j < |alphabet| && m[alphabet[j]] == c) ==> d in alphabet && m[d] == c
    ensures (forall j :: k <= j < |alphabet| ==> m[alphabet[j]] != c) ==> d == c
  {
    if k == |alphabet| then c
    else if m[alphabet[k]] == c then alphabet[k]
    else Preimage(m, alphabet, c, k + 1)
  }

  /** `m` is a bijection of the alphabet's characters onto themselves: it maps
      exactly the alphabet, into the alphabet, and the preimage search undoes
      it on both sides. */
  ghost predicate Bijection(m: map<char, char>, alphabet: seq<char>) {
    && (forall c :: c in m <==> c in alphabet)
    && (forall c :: c in m ==> m[c] in alphabet)
    && (forall c {:trigger m[c]} :: c in m ==> Preimage(m, alphabet, m[c], 0) == c)
    && (forall c {:trigger Preimage(m, alphabet, c, 0)} :: c in alphabet ==>
          Preimage(m, alphabet, c, 0) in m && m[Preimage(m, alphabet, c, 0)] == c)
  }

  /** A bijection maps distinct characters to distinct images. */
  lemma BijectionInjective(m: map<char, char>, alphabet: seq<char>, c: char, d: char)
    requires Bijection(m, alphabet) && c in m && d in m && c != d
    ensures m[c] != m[d]
  {
    assert Preimage(m, alphabet, m[c], 0) == c;
    assert Preimage(m, alphabet, m[d], 0) == d;
  }

  // ---------------------------------------------------------------------
  // What the built map holds
  // ---------------------------------------------------------------------

  /** Adding the first `k` characters of a cycle gives each of them an entry. */
  lemma {:induction false} AddCyclePrefixDomain(m: map<char, char>, cycle: seq<char>, k: nat)
    requires k <= |cycle|
    ensures forall x :: x in AddCyclePrefix(m, cycle, k) <==> x in m || x in cycle[..k]
  {
    if k > 0 {
      AddCyclePrefixDomain(m, cycle, k - 1);
      assert cycle[..k] == cycle[..k - 1] + [cycle[k - 1]];
    }
  }

  /** Adding the first `k` characters of a cycle leaves the entry of every
      other character alone. */
  lemma {:induction false} AddCyclePrefixKeeps(m: map<char, char>, cycle: seq<char>, k: nat)
    requires k <= |cycle|
    ensures forall x :: x in AddCyclePrefix(m, cycle, k) <==> x in m || x in cycle[..k]
    ensures forall x :: x in m && x !in cycle[..k] ==> AddCyclePrefix(m, cycle, k)[x] == m[x]
  {
    AddCyclePrefixDomain(m, cycle, k);
    if k > 0 {
      AddCyclePrefixKeeps(m, cycle, k - 1);
      assert cycle[..k] == cycle[..k - 1] + [cycle[k - 1]];
    }
  }

  /** Adding the first `k` characters of a cycle without repeats maps each of
      them to its successor. */
  lemma {:induction false} AddCyclePrefixSuccessors(m: map<char, char>, cycle: seq<char>, k: nat)
    requires k <= |cycle| && Distinct(cycle)
    ensures forall x :: x in AddCyclePrefix(m, cycle, k) <==> x in m || x in cycle[..k]
    ensures forall a :: 0 <= a < k ==> AddCyclePrefix(m, cycle, k)[cycle[a]] == Successor(cycle, a)
  {
    AddCyclePrefixDomain(m, cycle, k);
    if k > 0 {
      AddCyclePrefixSuccessors(m, cycle, k - 1);
      var prev := AddCyclePrefix(m, cycle, k - 1);
      var c := cycle[k - 1];
      assert AddCyclePrefix(m, cycle, k) == prev[c := Successor(cycle, k - 1)];
      forall a | 0 <= a < k - 1
        ensures cycle[a] != c && prev[cycle[a]] == Successor(cycle, a)
      {
        DistinctAt(cycle, a, k - 1);
      }
    }
  }

  /** Adding a cycle without repeated characters maps each of its first `k`
      characters to its successor and leaves every other entry alone. */
  lemma AddCyclePrefixLookup(m: map<char, char>, cycle: seq<char>, k: nat)
    requires k <= |cycle| && Distinct(cycle)
    ensures forall x :: x in AddCyclePrefix(m, cycle, k) <==> x in m || x in cycle[..k]
    ensures forall a :: 0 <= a < k ==> AddCyclePrefix(m, cycle, k)[cycle[a]] == Successor(cycle, a)
    ensures forall x :: x in m && x !in cycle[..k] ==> AddCyclePrefix(m, cycle, k)[x] == m[x]
  {
    AddCyclePrefixKeeps(m, cycle, k);
    AddCyclePrefixSuccessors(m, cycle, k);
  }

  /** The map built from cycles has an entry exactly for the listed characters. */
  lemma {:induction false} CycleMapDomain(ts: seq<seq<char>>)
    ensures forall x :: x in CycleMap(ts) <==> Listed(ts, x)
  {
    if ts != [] {
      var n := |ts| - 1;
      var init, last := ts[..n], ts[n];
      CycleMapDomain(init);
      var prev := CycleMap(init);
      AddCyclePrefixDomain(prev, last, |last|);
      assert last[..|last|] == last;
      forall x
        ensures x in CycleMap(ts) <==> Listed(ts, x)
      {
        if x in last {
          assert x in ts[n];
        } else if Listed(ts, x) {
          var i :| 0 <= i < |ts| && x in ts[i];
          assert x in init[i];
        }
      }
    }
  }

  /** The first `n` cycles of disjoint cycles are disjoint cycles. */
  lemma DisjointPrefix(ts: seq<seq<char>>, alphabet: seq<char>, n: nat)
    requires DisjointCycles(ts, alphabet) && n <= |ts|
    ensures DisjointCycles(ts[..n], alphabet)
  {
    assert forall i :: 0 <= i < n ==> ts[..n][i] == ts[i];
  }

  /** The map built from disjoint cycles sends `ts[i][a]` to its successor. */
  lemma {:induction false} CycleMapValueAt(ts: seq<seq<char>>, alphabet: seq<char>, i: nat, a: nat)
    requires DisjointCycles(ts, alphabet) && i < |ts| && a < |ts[i]|
    ensures ts[i][a] in CycleMap(ts) && CycleMap(ts)[ts[i][a]] == Successor(ts[i], a)
    decreases |ts|
  {
    var n := |ts| - 1;
    var init, last := ts[..n], ts[n];
    var prev := CycleMap(init);
    assert CycleMap(ts) == AddCyclePrefix(prev, last, |last|);
    AddCyclePrefixLookup(prev, last, |last|);
    assert last[..|last|] == last;
    if i < n {
      DisjointPrefix(ts, alphabet, n);
      assert init[i] == ts[i];
      CycleMapValueAt(init, alphabet, i, a);
      var x := ts[i][a];
      assert x !in last by {
        assert x in Chars(ts[i]);
        assert Chars(ts[i]) !! Chars(ts[n]);
      }
    }
  }

  /** The map built from disjoint cycles sends every listed character to its
      successor in its cycle. */
  lemma CycleMapValues(ts: seq<seq<char>>, alphabet: seq<char>)
    requires DisjointCycles(ts, alphabet)
    ensures forall i, a :: 0 <= i < |ts| && 0 <= a < |ts[i]| ==>
              ts[i][a] in CycleMap(ts) && CycleMap(ts)[ts[i][a]] == Successor(ts[i], a)
  {
    forall i, a | 0 <= i < |ts| && 0 <= a < |ts[i]|
      ensures ts[i][a] in CycleMap(ts) && CycleMap(ts)[ts[i][a]] == Successor(ts[i], a)
    {
      CycleMapValueAt(ts, alphabet, i, a);
    }
  }

  /** The map built from disjoint cycles sends every listed character to its
      successor in its cycle, and holds nothing else. */
  lemma CycleMapLookup(ts: seq<seq<char>>, alphabet: seq<char>)
    requires DisjointCycles(ts, alphabet)
    ensures forall x :: x in CycleMap(ts) <==> Listed(ts, x)
    ensures forall i, a :: 0 <= i < |ts| && 0 <= a < |ts[i]| ==>
              ts[i][a] in CycleMap(ts) && CycleMap(ts)[ts[i][a]] == Successor(ts[i], a)
  {
    CycleMapDomain(ts);
    CycleMapValues(ts, alphabet);
  }

  /** Filling maps each alphabet character that had no entry to itself and
      keeps every entry that was there. */
  lemma {:induction false} FillPrefixLookup(m: map<char, char>, alphabet: seq<char>, k: nat)
    requires k <= |alphabet|
    ensures forall x :: x in FillPrefix(m, alphabet, k) <==> x in m || x in alphabet[..k]
    ensures forall x :: x in m ==> FillPrefix(m, alphabet, k)[x] == m[x]
    ensures forall x :: x in alphabet[..k] && x !in m ==> FillPrefix(m, alphabet, k)[x] == x
  {
    if k > 0 {
      FillPrefixLookup(m, alphabet, k - 1);
      assert alphabet[..k] == alphabet[..k - 1] + [alphabet[k - 1]];
    }
  }

  /** A cycle c0 c1 ... cm maps each cj to cj+1 and cm to c0; alphabet
      characters in no cycle map to themselves; nothing outside the alphabet
      has an entry. */
  lemma BuildLookup(cycles: seq<char>, alphabet: seq<char>)
    requires DisjointCycles(Tokens(cycles), alphabet)
    ensures forall c :: c in Build(cycles, alphabet) <==> c in alphabet
    ensures forall i, a :: 0 <= i < |Tokens(cycles)| && 0 <= a < |Tokens(cycles)[i]| ==>
              Tokens(cycles)[i][a] in Build(cycles, alphabet) &&
              Build(cycles, alphabet)[Tokens(cycles)[i][a]] == Successor(Tokens(cycles)[i], a)
    ensures forall c :: c in alphabet && !Listed(Tokens(cycles), c) ==> Build(cycles, alphabet)[c] == c
  {
    var ts := Tokens(cycles);
    CycleMapLookup(ts, alphabet);
    FillPrefixLookup(CycleMap(ts), alphabet, |alphabet|);
    assert alphabet[..|alphabet|] == alphabet;
    forall c | c in CycleMap(ts) ensures c in alphabet {
      var i :| 0 <= i < |ts| && c in ts[i];
      assert c in Chars(ts[i]);
    }
  }

  /** The position in `cycle` of the successor of `cycle[a]`. */
  function NextIndex(cycle: seq<char>, a: nat): (b: nat)
    requires a < |cycle|
    ensures b < |cycle| && cycle[b] == Successor(cycle, a)
    ensures b == (a + 1) % |cycle|
  {
    if a == |cycle| - 1 then 0 else a + 1
  }

  /** The image of a listed character is the next character of its cycle. */
  lemma ImageOfListed(cycles: seq<char>, alphabet: seq<char>, c: char) returns (i: nat, a: nat)
    requires DisjointCycles(Tokens(cycles), alphabet) && Listed(Tokens(cycles), c)
    ensures i < |Tokens(cycles)| && a < |Tokens(cycles)[i]| && Tokens(cycles)[i][a] == c
    ensures c in Build(cycles, alphabet)
    ensures Build(cycles, alphabet)[c] == Tokens(cycles)[i][NextIndex(Tokens(cycles)[i], a)]
  {
    BuildLookup(cycles, alphabet);
    var ts := Tokens(cycles);
    i :| 0 <= i < |ts| && c in ts[i];
    a :| 0 <= a < |ts[i]| && ts[i][a] == c;
  }

  /** Distinct alphabet characters have distinct images. */
  lemma BuildInjectiveAt(cycles: seq<char>, alphabet: seq<char>, c: char, d: char)
    requires DisjointCycles(Tokens(cycles), alphabet) && c in alphabet && d in alphabet && c != d
    ensures c in Build(cycles, alphabet) && d in Build(cycles, alphabet)
    ensures Build(cycles, alphabet)[c] != Build(cycles, alphabet)[d]
  {
    var ts, m := Tokens(cycles), Build(cycles, alphabet);
    BuildLookup(cycles, alphabet);
    if Listed(ts, c) && Listed(ts, d) {
      var i, a := ImageOfListed(cycles, alphabet, c);
      var j, b := ImageOfListed(cycles, alphabet, d);
      var a', b' := NextIndex(ts[i], a), NextIndex(ts[j], b);
      if i < j {
        assert ts[i][a'] in Chars(ts[i]) && ts[j][b'] in Chars(ts[j]);
      } else if j < i {
        assert ts[i][a'] in Chars(ts[i]) && ts[j][b'] in Chars(ts[j]);
      } else {
        assert a != b;
        assert a' != b';
        DistinctAt(ts[i], a', b');
      }
    } else if Listed(ts, c) {
      var i, a := ImageOfListed(cycles, alphabet, c);
      assert m[c] in ts[i];
      assert m[d] == d;
    } else if Listed(ts, d) {
      var j, b := ImageOfListed(cycles, alphabet, d);
      assert m[d] in ts[j];
      assert m[c] == c;
    }
  }

  /** Every alphabet character is the image of some alphabet character. */
  lemma BuildSurjectiveAt(cycles: seq<char>, alphabet: seq<char>, c: char) returns (d: char)
    requires DisjointCycles(Tokens(cycles), alphabet) && c in alphabet
    ensures d in alphabet && d in Build(cycles, alphabet) && Build(cycles, alphabet)[d] == c
  {
    var ts := Tokens(cycles);
    BuildLookup(cycles, alphabet);
    if Listed(ts, c) {
      var i :| 0 <= i < |ts| && c in ts[i];
      var a :| 0 <= a < |ts[i]| && ts[i][a] == c;
      var p := if a == 0 then |ts[i]| - 1 else a - 1;
      assert NextIndex(ts[i], p) == a;
      d := ts[i][p];
      assert d in Chars(ts[i]);
    } else {
      d := c;
    }
  }

  /** The preimage search over the built map finds a character mapping to `c`. */
  lemma BuildPreimage(cycles: seq<char>, alphabet: seq<char>, c: char)
    requires DisjointCycles(Tokens(cycles), alphabet) && c in alphabet
    ensures forall x :: x in alphabet ==> x in Build(cycles, alphabet)
    ensures Build(cycles, alphabet)[Preimage(Build(cycles, alphabet), alphabet, c, 0)] == c
  {
    BuildLookup(cycles, alphabet);
    var m := Build(cycles, alphabet);
    var d := BuildSurjectiveAt(cycles, alphabet, c);
    var j :| 0 <= j < |alphabet| && alphabet[j] == d;
    assert m[alphabet[j]] == c;
  }

  /** Every image is an alphabet character. */
  lemma BuildClosed(cycles: seq<char>, alphabet: seq<char>, c: char)
    requires DisjointCycles(Tokens(cycles), alphabet) && c in alphabet
    ensures c in Build(cycles, alphabet) && Build(cycles, alphabet)[c] in alphabet
  {
    BuildLookup(cycles, alphabet);
    if Listed(Tokens(cycles), c) {
      var i, a := ImageOfListed(cycles, alphabet, c);
      assert Build(cycles, alphabet)[c] in Chars(Tokens(cycles)[i]);
    }
  }

  /** Disjoint cycles over the alphabet give a bijection of the alphabet. */
  lemma BuildIsBijection(cycles: seq<char>, alphabet: seq<char>)
    requires DisjointCycles(Tokens(cycles), alphabet)
    ensures Bijection(Build(cycles, alphabet), alphabet)
  {
    var m := Build(cycles, alphabet);
    BuildDomain(cycles, alphabet);
    BuildClosedAll(cycles, alphabet);
    BuildInjective(cycles, alphabet);
    BuildPreimageAll(cycles, alphabet);
  }

  /** The built map has an entry exactly for the alphabet characters. */
  lemma BuildDomain(cycles: seq<char>, alphabet: seq<char>)
    requires DisjointCycles(Tokens(cycles), alphabet)
    ensures forall c :: c in Build(cycles, alphabet) <==> c in alphabet
  {
    BuildLookup(cycles, alphabet);
  }

  lemma BuildClosedAll(cycles: seq<char>, alphabet: seq<char>)
    requires DisjointCycles(Tokens(cycles), alphabet)
    ensures forall c :: c in Build(cycles, alphabet) ==> Build(cycles, alphabet)[c] in alphabet
  {
    BuildDomain(cycles, alphabet);
    forall c | c in Build(cycles, alphabet)
      ensures Build(cycles, alphabet)[c] in alphabet
    {
      BuildClosed(cycles, alphabet, c);
    }
  }

  lemma BuildInjective(cycles: seq<char>, alphabet: seq<char>)
    requires DisjointCycles(Tokens(cycles), alphabet)
    ensures forall x :: x in alphabet ==> x in Build(cycles, alphabet)
    ensures forall c {:trigger Build(cycles, alphabet)[c]} :: c in Build(cycles, alphabet) ==>
              Preimage(Build(cycles, alphabet), alphabet, Build(cycles, alphabet)[c], 0) == c
  {
    var m := Build(cycles, alphabet);
    BuildDomain(cycles, alphabet);
    forall c | c in m
      ensures Preimage(m, alphabet, m[c], 0) == c
    {
      var j :| 0 <= j < |alphabet| && alphabet[j] == c;
      assert m[alphabet[j]] == m[c];
      var d := Preimage(m, alphabet, m[c], 0);
      if d != c {
        BuildInjectiveAt(cycles, alphabet, c, d);
      }
    }
  }

  lemma BuildPreimageAll(cycles: seq<char>, alphabet: seq<char>)
    requires DisjointCycles(Tokens(cycles), alphabet)
    ensures forall x :: x in alphabet ==> x in Build(cycles, alphabet)
    ensures forall c {:trigger Preimage(Build(cycles, alphabet), alphabet, c, 0)} :: c in alphabet ==>
              Preimage(Build(cycles, alphabet), alphabet, c, 0) in Build(cycles, alphabet) &&
              Build(cycles, alphabet)[Preimage(Build(cycles, alphabet), alphabet, c, 0)] == c
  {
    BuildDomain(cycles, alphabet);
    forall c | c in alphabet
      ensures Preimage(Build(cycles, alphabet), alphabet, c, 0) in Build(cycles, alphabet)
      ensures Build(cycles, alphabet)[Preimage(Build(cycles, alphabet), alphabet, c, 0)] == c
    {
      BuildPreimage(cycles, alphabet, c);
    }
  }

  /** Cycles of one or two characters give a map that is its own inverse:
      applying it twice gives back every alphabet character. */
  lemma PairsInvolution(cycles: seq<char>, alphabet: seq<char>, c: char)
    requires DisjointCycles(Tokens(cycles), alphabet)
    requires forall k | 0 <= k < |Tokens(cycles)| :: |Tokens(cycles)[k]| <= 2
    requires c in alphabet
    ensures c in Build(cycles, alphabet) && Build(cycles, alphabet)[c] in Build(cycles, alphabet)
    ensures Build(cycles, alphabet)[Build(cycles, alphabet)[c]] == c
  {
    var ts, m := Tokens(cycles), Build(cycles, alphabet);
    BuildLookup(cycles, alphabet);
    BuildClosed(cycles, alphabet, c);
    if Listed(ts, c) {
      var i, a := ImageOfListed(cycles, alphabet, c);
      var b := NextIndex(ts[i], a);
      var d := m[c];
      assert Listed(ts, d) by {
        assert d in ts[i];
      }
      var i2, a2 := ImageOfListed(cycles, alphabet, d);
    }
  }

  // ---------------------------------------------------------------------
  // The permutation object
  // ---------------------------------------------------------------------

  /** Java's `%` on int: the remainder of division truncated toward zero,
      which takes the sign of `p`. */
  function JavaRem(p: int, n: int): (r: int)
    requires n > 0
    ensures -n < r < n
  {
    if p >= 0 then p % n else -((-p) % n)
  }

  /** Euclidean remainder is determined by any decomposition p == n * k + r with 0 <= r < n. */
  lemma ModOfDecomposition(p: int, n: int, k: int, r: int)
    requires n > 0 && 0 <= r < n && p == n * k + r
    ensures p % n == r
  {
    var q := p / n;
    assert n * (k - q) == p % n - r;
    if k - q >= 1 {
      assert false;
    } else if k - q <= -1 {
      assert false;
    }
  }

  /** An index already in range is its own remainder. */
  lemma ModOfInRange(p: int, n: int)
    requires 0 <= p < n
    ensures p % n == p
  {
    ModOfDecomposition(p, n, 0, p);
  }

  /** Reducing the left operand first does not change a sum's remainder. */
  lemma ModOfSum(a: int, b: int, n: int)
    requires n > 0
    ensures (a % n + b) % n == (a + b) % n
  {
    var q, q' := a / n, (a % n + b) / n;
    assert a == n * q + a % n;
    assert a % n + b == n * q' + (a % n + b) % n;
    assert a + b == n * (q + q') + (a % n + b) % n;
    ModOfDecomposition(a + b, n, q + q', (a % n + b) % n);
  }

  /** Adding `n` to a negative Java remainder gives the Euclidean remainder. */
  lemma WrapIsEuclidean(p: int, n: int)
    requires n > 0
    ensures (if JavaRem(p, n) < 0 then JavaRem(p, n) + n else JavaRem(p, n)) == p % n
  {
    if p < 0 {
      var r := JavaRem(p, n);
      assert -p == n * ((-p) / n) + (-p) % n;
      if r < 0 {
        ModOfDecomposition(p, n, -((-p) / n) - 1, r + n);
      } else {
        ModOfDecomposition(p, n, -((-p) / n), r);
      }
    }
  }

  class Permutation {
    const alphabet: seq<char>
    const cycles: seq<char>
    /** The forward mapping.  It is written only while the constructor runs,
        so it is a constant here. */
    const perm: map<char, char>

    /** Every alphabet character has an entry (the constructor's second loop). */
    ghost predicate Valid() {
      forall c {:trigger c in perm} :: c in alphabet ==> c in perm
    }

    /** Splits `cycles` into cycles, adds each one, then maps every alphabet
        character still missing to itself.  Nothing about the cycles is checked. */
    constructor (cycles: seq<char>, alphabet: seq<char>)
      ensures this.alphabet == alphabet && this.cycles == cycles
      ensures perm == Build(cycles, alphabet) && Valid()
    {
      this.alphabet := alphabet;
      this.cycles := cycles;
      var m: map<char, char> := map[];
      var splitted := Split(Cleaned(cycles));
      var i := 0;
      while i < |splitted|
        invariant 0 <= i <= |splitted|
        invariant m == CycleMap(splitted[..i])
      {
        assert splitted[..i + 1][..i] == splitted[..i];
        m := AddCycle(m, splitted[i]);
        i := i + 1;
      }
      assert splitted[..i] == splitted;
      ghost var filled := m;
      i := 0;
      while i < |alphabet|
        invariant 0 <= i <= |alphabet|
        invariant m == FillPrefix(filled, alphabet, i)
      {
        if alphabet[i] !in m {
          m := m[alphabet[i] := alphabet[i]];
        }
        i := i + 1;
      }
      FillPrefixLookup(filled, alphabet, |alphabet|);
      assert alphabet[..|alphabet|] == alphabet;
      perm := m;
    }

    /** Adds the cycle c0 -> c1 -> ... -> cm -> c0 spelled by `cycle` to the
        mapping `m` under construction. */
    static method AddCycle(m: map<char, char>, cycle: seq<char>) returns (m': map<char, char>)
      ensures m' == AddCyclePrefix(m, cycle, |cycle|)
    {
      m' := m;
      for j := 0 to |cycle|
        invariant m' == AddCyclePrefix(m, cycle, j)
      {
        if j == |cycle| - 1 {
          m' := m'[cycle[j] := cycle[0]];
        } else {
          m' := m'[cycle[j] := cycle[j + 1]];
        }
      }
    }

    function Size(): (n: nat)
      ensures n == Alphabets.Size(alphabet)
    {
      |alphabet|
    }

    /** `p` modulo the size, in range for negative `p` too. */
    function Wrap(p: int): (r: int)
      requires |alphabet| > 0
      ensures 0 <= r < |alphabet|
    {
      var r := JavaRem(p, |alphabet|);
      if r < 0 then r + |alphabet| else r
    }

    /** `wrap` is congruent to its argument: it agrees with the Euclidean remainder. */
    lemma WrapIsMod(p: int)
      requires |alphabet| > 0
      ensures Wrap(p) == p % |alphabet|
    {
      WrapIsEuclidean(p, |alphabet|);
    }

    /** The image of `c`; a character outside the alphabet is an error. */
    function PermuteChar(c: char): (r: Result<char>)
      requires Valid()
      ensures r.Failure? <==> c !in alphabet
      ensures r.Success? ==> c in perm && r.value == perm[c]
    {
      if !Alphabets.Contains(alphabet, c) then Failure(NotInAlphabet) else Success(perm[c])
    }

    /** The image of the index `p` taken modulo the size. */
    function PermuteIndex(p: int): (r: int)
      requires Valid() && |alphabet| > 0
      ensures 0 <= r < |alphabet|
    {
      var check := ToChar(alphabet, Wrap(p));
      var changed := PermuteChar(check).value;
      ToInt(alphabet, changed)
    }

    /** The reference inverse: the first alphabet character whose image is
        `c`, or `c` itself when there is none. */
    function Inverse(c: char): (d: char)
      requires Valid()
      ensures d == c || (d in alphabet && perm[d] == c)
    {
      Preimage(perm, alphabet, c, 0)
    }

    /** The inverse image of the index `p` taken modulo the size. */
    function InverseIndex(p: int): (r: int)
      requires Valid() && |alphabet| > 0
      ensures 0 <= r < |alphabet|
    {
      ToInt(alphabet, Inverse(ToChar(alphabet, Wrap(p))))
    }

    /** For a bijection, the index image names the image of the wrapped index's character. */
    lemma PermuteIndexImage(p: int)
      requires Valid() && |alphabet| > 0 && Bijection(perm, alphabet)
      ensures alphabet[PermuteIndex(p)] == perm[alphabet[p % |alphabet|]]
    {
      WrapIsMod(p);
      var c := alphabet[Wrap(p)];
      assert c in perm;
      ToIntOfMember(alphabet, perm[c]);
    }

    /** For a bijection, the index inverse names a character whose image is the wrapped index's. */
    lemma InverseIndexImage(p: int)
      requires Valid() && |alphabet| > 0 && Bijection(perm, alphabet)
      ensures perm[alphabet[InverseIndex(p)]] == alphabet[p % |alphabet|]
    {
      WrapIsMod(p);
      var c := alphabet[Wrap(p)];
      ImageOfInverse(c);
      ToIntOfMember(alphabet, Inverse(c));
    }

    /** For a bijection, `Inverse` undoes the forward map. */
    lemma InverseOfImage(c: char)
      requires Valid() && Bijection(perm, alphabet) && c in alphabet
      ensures Inverse(perm[c]) == c
    {
      var j :| 0 <= j < |alphabet| && alphabet[j] == c;
      assert perm[alphabet[j]] == perm[c];
    }

    /** For a bijection, the forward map undoes `Inverse`. */
    lemma ImageOfInverse(c: char)
      requires Valid() && Bijection(perm, alphabet) && c in alphabet
      ensures Inverse(c) in perm && perm[Inverse(c)] == c
    {
    }

    /** Over distinct alphabet characters, the index inverse undoes the index image. */
    lemma InvertAfterPermuteIndex(i: int)
      requires Valid() && Bijection(perm, alphabet) && Distinct(alphabet) && 0 <= i < |alphabet|
      ensures InverseIndex(PermuteIndex(i)) == i
    {
      var c := alphabet[i];
      ModOfInRange(i, |alphabet|);
      var j := PermuteIndex(i);
      PermuteIndexImage(i);
      assert 0 <= j < |alphabet| && alphabet[j] == perm[c];
      ModOfInRange(j, |alphabet|);
      WrapIsMod(j);
      assert InverseIndex(j) == ToInt(alphabet, Inverse(alphabet[j]));
      InverseOfImage(c);
      assert Inverse(alphabet[j]) == c;
    }

    /** Over distinct alphabet characters, the index image undoes the index inverse. */
    lemma PermuteAfterInvertIndex(i: int)
      requires Valid() && Bijection(perm, alphabet) && Distinct(alphabet) && 0 <= i < |alphabet|
      ensures PermuteIndex(InverseIndex(i)) == i
    {
      var c := alphabet[i];
      ModOfInRange(i, |alphabet|);
      ImageOfInverse(c);
      var k := InverseIndex(i);
      InverseIndexImage(i);
      ModOfInRange(k, |alphabet|);
      WrapIsMod(k);
      assert alphabet[k] == Inverse(c);
    }

    /** On indices, the inverse and the forward map undo each other. */
    ghost predicate IndexBijection()
      requires Valid() && |alphabet| > 0
    {
      && (forall x {:trigger InverseIndex(PermuteIndex(x))} :: 0 <= x < |alphabet| ==> InverseIndex(PermuteIndex(x)) == x)
      && (forall x {:trigger PermuteIndex(InverseIndex(x))} :: 0 <= x < |alphabet| ==> PermuteIndex(InverseIndex(x)) == x)
    }

    /** On indices, the map is its own inverse (every cycle has length one or two). */
    ghost predicate IndexInvolution()
      requires Valid() && |alphabet| > 0
    {
      forall x {:trigger PermuteIndex(PermuteIndex(x))} :: 0 <= x < |alphabet| ==> PermuteIndex(PermuteIndex(x)) == x
    }

    /** On indices, the map moves every index. */
    ghost predicate IndexDerangement()
      requires Valid() && |alphabet| > 0
    {
      forall x {:trigger PermuteIndex(x)} :: 0 <= x < |alphabet| ==> PermuteIndex(x) != x
    }

    /** A map that is its own inverse on the alphabet's characters is its own
        inverse on their indices, when the characters are distinct. */
    lemma InvolutionOnIndices()
      requires Valid() && Distinct(alphabet) && |alphabet| > 0
      requires forall c | c in alphabet :: perm[c] in alphabet && perm[perm[c]] == c
      ensures IndexInvolution()
    {
      forall x | 0 <= x < |alphabet|
        ensures PermuteIndex(PermuteIndex(x)) == x
      {
        var c := alphabet[x];
        ModOfInRange(x, |alphabet|);
        WrapIsMod(x);
        var y := PermuteIndex(x);
        ToIntOfMember(alphabet, perm[c]);
        assert alphabet[y] == perm[c];
        ModOfInRange(y, |alphabet|);
        WrapIsMod(y);
        assert PermuteIndex(y) == ToInt(alphabet, perm[perm[c]]);
      }
    }

    /** A map with no fixed point on the alphabet's characters has none on
        their indices, when the characters are distinct. */
    lemma DerangementOnIndices()
      requires Valid() && Distinct(alphabet) && |alphabet| > 0
      requires forall c | c in alphabet :: perm[c] in alphabet
      requires forall c | c in perm :: perm[c] != c
      ensures IndexDerangement()
    {
      forall x | 0 <= x < |alphabet|
        ensures PermuteIndex(x) != x
      {
        var c := alphabet[x];
        ModOfInRange(x, |alphabet|);
        WrapIsMod(x);
        ToIntOfMember(alphabet, perm[c]);
        assert alphabet[PermuteIndex(x)] == perm[c];
      }
    }

    /** A bijection over distinct characters is a bijection on indices. */
    lemma BijectionOnIndices()
      requires Valid() && Bijection(perm, alphabet) && Distinct(alphabet) && |alphabet| > 0
      ensures IndexBijection()
    {
      forall x | 0 <= x < |alphabet|
        ensures InverseIndex(PermuteIndex(x)) == x && PermuteIndex(InverseIndex(x)) == x
      {
        InvertAfterPermuteIndex(x);
        PermuteAfterInvertIndex(x);
      }
    }

    /** Searches the entries for one whose image is `c` and returns its key, or
        `c` when no entry maps to it; the search order is the hash map's and is
        left open.  A character outside the alphabet is an error. */
    method InvertChar(c: char) returns (r: Result<char>)
      requires Valid()
      ensures r.Failure? <==> c !in alphabet
      ensures r.Success? ==>
                ((r.value in perm && perm[r.value] == c) || (r.value == c && forall k :: k in perm ==> perm[k] != c))
      ensures r.Success? && Bijection(perm, alphabet) ==> r.value == Inverse(c)
    {
      if !Alphabets.Contains(alphabet, c) {
        return Failure(NotInAlphabet);
      }
      var keys := perm.Keys;
      while keys != {}
        invariant keys <= perm.Keys
        invariant forall k :: k in perm && k !in keys ==> perm[k] != c
        decreases keys
      {
        var k :| k in keys;
        if perm[k] == c {
          if Bijection(perm, alphabet) {
            ImageOfInverse(c);
          }
          return Success(k);
        }
        keys := keys - {k};
      }
      if Bijection(perm, alphabet) {
        ImageOfInverse(c);
      }
      return Success(c);
    }

    /** The inverse image of the index `p` taken modulo the size. */
    method InvertIndex(p: int) returns (r: int)
      requires Valid() && |alphabet| > 0
      ensures 0 <= r < |alphabet|
      ensures Bijection(perm, alphabet) ==> r == InverseIndex(p)
    {
      WrapIsMod(p);
      var check := ToChar(alphabet, Wrap(p));
      var changed := InvertChar(check);
      r := ToInt(alphabet, changed.value);
    }

    /** Whether no entry maps a character to itself; the key order is left open. */
    method Derangement() returns (b: bool)
      ensures b <==> forall k :: k in perm ==> perm[k] != k
    {
      var keys := perm.Keys;
      while keys != {}
        invariant keys <= perm.Keys
        invariant forall k :: k in perm && k !in keys ==> perm[k] != k
        decreases keys
      {
        var k :| k in keys;
        if perm[k] == k {
          return false;
        }
        keys := keys - {k};
      }
      return true;
    }
  }
}
