/** The unit tests' permutations, worked out from the general lemmas. */
module PermutationExamples {
  import opened Wrappers
  import opened Alphabets
  import opened Permutations

  /** `(BACD)` reads as one empty piece before the parenthesis and the cycle. */
  lemma BacdTokens()
    ensures Tokens("(BACD)") == ["", "BACD"]
  {
    BacdCleaned();
    BacdPieces();
    assert Split(" BACD ") == DropTrailingEmpty(["", "BACD", ""]);
  }

  /** Both parentheses of `(BACD)` become spaces. */
  lemma BacdCleaned()
    ensures Cleaned("(BACD)") == " BACD "
  {
    var s := Cleaned("(BACD)");
    assert s[0] == ' ' && s[5] == ' ';
    assert s[1] == 'B' && s[2] == 'A' && s[3] == 'C' && s[4] == 'D';
  }

  /** The pieces of ` BACD ` between its two spaces. */
  lemma BacdPieces()
    ensures Pieces(" BACD ") == ["", "BACD", ""]
  {
    assert " BACD " == "" + [' '] + "BACD ";
    assert "BACD " == "BACD" + [' '] + "";
    PiecesAtSpace("", "BACD ");
    PiecesAtSpace("BACD", "");
  }

  /** The one cycle lists distinct characters of `ABCD`. */
  lemma BacdDisjoint()
    ensures DisjointCycles(Tokens("(BACD)"), "ABCD")
  {
    BacdTokens();
    BacdDistinct();
    assert Chars("BACD") <= Chars("ABCD");
  }

  /** No character of the cycle `BACD` repeats. */
  lemma BacdDistinct()
    ensures Distinct("BACD")
  {
    assert ToInt("BACD", 'B') == 0;
    assert ToInt("BACD", 'A') == 1;
    assert ToInt("BACD", 'C') == 2;
    assert ToInt("BACD", 'D') == 3;
  }

  /** Over `ABCD`, `(BACD)` sends A to C and D to B, and every character is a key. */
  lemma BacdBuild()
    ensures forall c :: c in Build("(BACD)", "ABCD") <==> c in "ABCD"
    ensures Build("(BACD)", "ABCD")['A'] == 'C' && Build("(BACD)", "ABCD")['D'] == 'B'
    ensures Build("(BACD)", "ABCD")['B'] == 'A'
  {
    BacdTokens();
    BacdDisjoint();
    BuildLookup("(BACD)", "ABCD");
    var ts := Tokens("(BACD)");
    assert ts[1][1] == 'A' && Successor(ts[1], 1) == 'C';
    assert ts[1][3] == 'D' && Successor(ts[1], 3) == 'B';
    assert ts[1][0] == 'B' && Successor(ts[1], 0) == 'A';
  }

  /** Inverting the `(BACD)` permutation: A comes from B and B from D. */
  lemma BacdInverse(p: Permutation)
    requires p.alphabet == "ABCD" && p.perm == Build("(BACD)", "ABCD")
    ensures p.Valid() && Bijection(p.perm, p.alphabet)
    ensures p.Inverse('A') == 'B' && p.Inverse('B') == 'D'
  {
    BacdBuild();
    BacdDisjoint();
    BuildIsBijection("(BACD)", "ABCD");
    BuildInjective("(BACD)", "ABCD");
    assert p.perm['B'] == 'A' && p.perm['D'] == 'B';
  }

  /** Permuting with `(BACD)`: A goes to C and D to B, and F, outside the
      alphabet, is an error. */
  lemma BacdPermute(p: Permutation)
    requires p.alphabet == "ABCD" && p.perm == Build("(BACD)", "ABCD")
    ensures p.Valid()
    ensures p.PermuteChar('A') == Success('C') && p.PermuteChar('D') == Success('B')
    ensures p.PermuteChar('F').Failure?
  {
    BacdBuild();
  }

  /** The invert tests on `(BACD)`, through the hash-map search. */
  method BacdInvert(p: Permutation) returns (ia: Result<char>, ib: Result<char>)
    requires p.alphabet == "ABCD" && p.perm == Build("(BACD)", "ABCD")
    ensures ia == Success('B') && ib == Success('D')
  {
    BacdInverse(p);
    ia := p.InvertChar('A');
    ib := p.InvertChar('B');
  }

  /** Inverting F, which is outside the alphabet `ABCD`, is an error. */
  method BacdInvertOutside(p: Permutation) returns (f: Result<char>)
    requires p.alphabet == "ABCD" && p.perm == Build("(BACD)", "ABCD")
    ensures f.Failure?
  {
    BacdBuild();
    f := p.InvertChar('F');
  }

  /** An empty cycle string leaves every character of the alphabet fixed. */
  lemma IdentityBuild(alphabet: seq<char>)
    ensures forall c :: c in Build("", alphabet) <==> c in alphabet
    ensures forall c | c in alphabet :: Build("", alphabet)[c] == c
  {
    assert Tokens("") == [""];
    assert DisjointCycles([""], alphabet);
    BuildLookup("", alphabet);
  }

  /** The identity test: over the default alphabet, the permutation built
      from no cycles maps every index, and inverts every index, to itself. */
  lemma IdentityIndices(p: Permutation)
    requires p.alphabet == Upper && p.perm == Build("", Upper)
    ensures p.Valid()
    ensures forall i | 0 <= i < 26 :: p.PermuteIndex(i) == i && p.InverseIndex(i) == i
  {
    IdentityBuild(Upper);
    DefaultAlphabet();
    forall i | 0 <= i < 26
      ensures p.PermuteIndex(i) == i && p.InverseIndex(i) == i
    {
      ModOfInRange(i, 26);
      p.WrapIsMod(i);
      ToIntOfMember(Upper, Upper[i]);
      assert p.perm[Upper[i]] == Upper[i];
      assert Preimage(p.perm, Upper, Upper[i], 0) == Upper[i] by {
        PreimageOfFixed(p.perm, Upper, i, 0);
      }
    }
  }

  /** In an identity map over distinct characters, the first character whose
      image is `alphabet[i]` is `alphabet[i]` itself. */
  lemma {:induction false} PreimageOfFixed(m: map<char, char>, alphabet: seq<char>, i: nat, k: nat)
    requires forall c | c in alphabet :: c in m && m[c] == c
    requires Distinct(alphabet) && k <= i < |alphabet|
    ensures Preimage(m, alphabet, alphabet[i], k) == alphabet[i]
    decreases |alphabet| - k
  {
    if k < i {
      DistinctAt(alphabet, k, i);
      PreimageOfFixed(m, alphabet, i, k + 1);
    }
  }
}
