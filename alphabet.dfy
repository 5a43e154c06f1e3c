/** An alphabet of encodable characters: a fixed string whose k-th character
    has index k.  The source never changes the string after construction, so
    the alphabet is the string itself and every operation is a function. */
module Alphabets {

  /** The default alphabet, the upper-case letters. */
  const Upper: seq<char> := "ABCDEFGHIJKLMNOPQRSTUVWXYZ"

  /** No character is duplicated: the index of each character (its first
      occurrence) is its own position. */
  ghost predicate Distinct(chars: seq<char>) {
    forall i :: 0 <= i < |chars| ==> ToInt(chars, chars[i]) == i
  }

  function Size(chars: seq<char>): (n: nat)
    ensures n == |chars|
  {
    |chars|
  }

  function Contains(chars: seq<char>, ch: char): (b: bool)
    ensures b <==> exists i :: 0 <= i < |chars| && chars[i] == ch
  {
    ch in chars
  }

  function ToChar(chars: seq<char>, index: int): (ch: char)
    requires 0 <= index < |chars|
    ensures ch in chars
  {
    chars[index]
  }

  /** The index of the first occurrence of `ch`, searching from position `from`;
      0 when `ch` does not occur there. */
  function IndexFrom(chars: seq<char>, ch: char, from: nat): (i: nat)
    requires from <= |chars|
    decreases |chars| - from
    ensures i == 0 || from <= i < |chars|
  {
    if from == |chars| then 0
    else if chars[from] == ch then from
    else IndexFrom(chars, ch, from + 1)
  }

  /** The search finds an occurrence when there is one, and gives 0 otherwise. */
  lemma {:induction false} IndexFromFinds(chars: seq<char>, ch: char, from: nat)
    requires from <= |chars|
    ensures ch in chars[from..] ==> from <= IndexFrom(chars, ch, from) < |chars| && chars[IndexFrom(chars, ch, from)] == ch
    ensures ch !in chars[from..] ==> IndexFrom(chars, ch, from) == 0
    decreases |chars| - from
  {
    if from < |chars| {
      assert chars[from..] == [chars[from]] + chars[from + 1..];
      IndexFromFinds(chars, ch, from + 1);
    }
  }

  /** The search stops at the first occurrence: nothing before it matches. */
  lemma {:induction false} IndexFromIsFirst(chars: seq<char>, ch: char, from: nat, k: int)
    requires from <= |chars| && ch in chars[from..]
    requires from <= k < IndexFrom(chars, ch, from)
    ensures chars[k] != ch
    decreases |chars| - from
  {
    assert chars[from..] == [chars[from]] + chars[from + 1..];
    if k > from {
      IndexFromIsFirst(chars, ch, from + 1, k);
    }
  }

  /** The index of `ch`: its first occurrence, or 0 when it is not a member. */
  function ToInt(chars: seq<char>, ch: char): (i: nat)
    ensures |chars| > 0 ==> i < |chars|
  {
    IndexFrom(chars, ch, 0)
  }

  /** `toInt` of a member names an occurrence of it. */
  lemma ToIntOfMember(chars: seq<char>, ch: char)
    requires ch in chars
    ensures ToInt(chars, ch) < |chars| && chars[ToInt(chars, ch)] == ch
  {
    assert chars[0..] == chars;
    IndexFromFinds(chars, ch, 0);
  }

  /** `toInt` of a character outside the alphabet is 0. */
  lemma ToIntOfNonMember(chars: seq<char>, ch: char)
    requires ch !in chars
    ensures ToInt(chars, ch) == 0
  {
    assert chars[0..] == chars;
    IndexFromFinds(chars, ch, 0);
  }

  /** `toInt` finds the first occurrence of a member. */
  lemma ToIntIsFirst(chars: seq<char>, ch: char, k: int)
    requires ch in chars && 0 <= k < ToInt(chars, ch)
    ensures chars[k] != ch
  {
    assert chars[0..] == chars;
    IndexFromIsFirst(chars, ch, 0, k);
  }

  lemma DefaultAlphabet()
    ensures Size(Upper) == 26
    ensures forall k :: 0 <= k < 26 ==> ToChar(Upper, k) as int == 'A' as int + k
    ensures Distinct(Upper)
  {
    assert forall k :: 0 <= k < 26 ==> Upper[k] as int == 'A' as int + k;
    DistinctIff(Upper);
  }

  /** Characters at different positions of a distinct alphabet differ. */
  lemma DistinctAt(chars: seq<char>, i: int, j: int)
    requires Distinct(chars) && 0 <= i < |chars| && 0 <= j < |chars| && i != j
    ensures chars[i] != chars[j]
  {
  }

  /** `Distinct` says exactly that no two positions hold the same character. */
  lemma DistinctIff(chars: seq<char>)
    ensures Distinct(chars) <==> forall i, j :: 0 <= i < j < |chars| ==> chars[i] != chars[j]
  {
    if Distinct(chars) {
      forall i, j | 0 <= i < j < |chars|
        ensures chars[i] != chars[j]
      {
        DistinctAt(chars, i, j);
      }
    }
    if forall i, j :: 0 <= i < j < |chars| ==> chars[i] != chars[j] {
      forall i | 0 <= i < |chars|
        ensures ToInt(chars, chars[i]) == i
      {
        ToIntOfMember(chars, chars[i]);
      }
    }
  }
}
