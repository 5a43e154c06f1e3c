/** The string-level work of the command-line driver: printing a converted
    line in blocks of five, checking a rotor's kind-and-notches token, and
    reading a `*` setting line into a machine. */
module Driver {
  import opened Wrappers
  import opened Alphabets
  import opened Permutations
  import opened Rotors
  import opened Machines

  // -------------------------------------------------------------------
  // Repeated entries (the nested duplicate searches of the driver)
  // -------------------------------------------------------------------

  /** Two entries of `xs` at positions `from` or later are equal. */
  predicate Repeated<T(==)>(xs: seq<T>, from: nat) {
    exists i, j | from <= i < j < |xs| :: xs[i] == xs[j]
  }

  /** Compares every pair of entries at positions `from` or later. */
  method HasRepeat<T(==)>(xs: seq<T>, from: nat) returns (b: bool)
    requires from <= |xs|
    ensures b <==> Repeated(xs, from)
  {
    for i := from to |xs|
      invariant forall a, c | from <= a < i && a < c < |xs| :: xs[a] != xs[c]
    {
      for j := i + 1 to |xs|
        invariant forall c | i < c < j :: xs[i] != xs[c]
      {
        if xs[i] == xs[j] {
          return true;
        }
      }
    }
    return false;
  }

  // -------------------------------------------------------------------
  // Printing in blocks of five
  // -------------------------------------------------------------------

  /** What is printed for `msg`: blocks of five characters, each followed by a
      space, and a last block of one to five characters followed by a line
      break; nothing at all for an empty message. */
  function Grouped(msg: seq<char>): (out: seq<char>)
    ensures |out| == |msg| + (|msg| + 4) / 5
    decreases |msg|
  {
    if |msg| == 0 then []
    else if |msg| > 5 then msg[..5] + [' '] + Grouped(msg[5..])
    else msg + ['\n']
  }

  /** Prints `msg` five characters at a time, counting down the letters left. */
  method PrintMessageLine(msg: seq<char>) returns (out: seq<char>)
    ensures out == Grouped(msg)
  {
    out := [];
    var remainingLetters := |msg|;
    var i := 0;
    while i < |msg|
      invariant 0 <= i
      invariant i < |msg| ==> remainingLetters == |msg| - i && out + Grouped(msg[i..]) == Grouped(msg)
      invariant i >= |msg| ==> out == Grouped(msg)
      decreases |msg| - i
    {
      if remainingLetters > 5 {
        out := out + msg[i..i + 5] + [' '];
        remainingLetters := remainingLetters - 5;
        assert msg[i..][..5] == msg[i..i + 5] && msg[i..][5..] == msg[i + 5..];
      } else {
        out := out + msg[i..remainingLetters + i] + ['\n'];
        assert msg[i..remainingLetters + i] == msg[i..];
      }
      i := i + 5;
    }
  }

  /** The message cut into blocks of five, the last one shorter. */
  function Blocks(msg: seq<char>): (bs: seq<seq<char>>)
    ensures msg == [] <==> bs == []
    ensures forall i | 0 <= i < |bs| - 1 :: |bs[i]| == 5
    ensures bs != [] ==> 1 <= |bs[|bs| - 1]| <= 5
    decreases |msg|
  {
    if msg == [] then []
    else if |msg| > 5 then [msg[..5]] + Blocks(msg[5..])
    else [msg]
  }

  /** The blocks laid end to end. */
  function Concat(bs: seq<seq<char>>): seq<char> {
    if bs == [] then [] else bs[0] + Concat(bs[1..])
  }

  /** The blocks with one space between neighbours. */
  function Spaced(bs: seq<seq<char>>): seq<char> {
    if bs == [] then []
    else if |bs| == 1 then bs[0]
    else bs[0] + [' '] + Spaced(bs[1..])
  }

  /** `s` with every space deleted. */
  function Unspaced(s: seq<char>): (r: seq<char>)
    ensures ' ' !in r
  {
    if s == [] then []
    else (if s[0] == ' ' then [] else [s[0]]) + Unspaced(s[1..])
  }

  /** Deleting spaces from a concatenation deletes them from each part. */
  lemma {:induction false} UnspacedConcat(a: seq<char>, b: seq<char>)
    ensures Unspaced(a + b) == Unspaced(a) + Unspaced(b)
  {
    if a != [] {
      UnspacedConcat(a[1..], b);
      var h: seq<char> := if a[0] == ' ' then [] else [a[0]];
      assert (a + b)[0] == a[0] && (a + b)[1..] == a[1..] + b;
      assert Unspaced(a + b) == h + Unspaced(a[1..] + b);
      assert Unspaced(a) == h + Unspaced(a[1..]);
    } else {
      assert a + b == b;
    }
  }

  /** A string without spaces is left as it is. */
  lemma {:induction false} UnspacedNone(a: seq<char>)
    requires ' ' !in a
    ensures Unspaced(a) == a
  {
    if a != [] {
      UnspacedNone(a[1..]);
      assert [a[0]] + a[1..] == a;
    }
  }

  /** Laying the blocks end to end gives the message back. */
  lemma {:induction false} BlocksConcat(msg: seq<char>)
    ensures Concat(Blocks(msg)) == msg
    decreases |msg|
  {
    if |msg| > 5 {
      BlocksConcat(msg[5..]);
      var bs := Blocks(msg);
      assert bs[1..] == Blocks(msg[5..]);
      assert msg[..5] + msg[5..] == msg;
    } else if msg != [] {
      assert Blocks(msg)[1..] == [];
    }
  }

  /** The printed text is the blocks separated by single spaces, then a line
      break, or nothing for an empty message. */
  lemma {:induction false} GroupedIsBlocks(msg: seq<char>)
    ensures Grouped(msg) == if msg == [] then [] else Spaced(Blocks(msg)) + ['\n']
    decreases |msg|
  {
    if |msg| > 5 {
      GroupedIsBlocks(msg[5..]);
      var bs := Blocks(msg);
      assert bs[1..] == Blocks(msg[5..]);
      assert |bs| > 1;
    }
  }

  /** Deleting the spaces from the printed text of a message without spaces
      leaves the message itself, followed by the line break when it is not empty. */
  lemma {:induction false} GroupedUnspaced(msg: seq<char>)
    requires ' ' !in msg
    ensures Unspaced(Grouped(msg)) == if msg == [] then [] else msg + ['\n']
    decreases |msg|
  {
    if |msg| > 5 {
      GroupedUnspaced(msg[5..]);
      UnspacedConcat(msg[..5] + [' '], Grouped(msg[5..]));
      UnspacedConcat(msg[..5], [' ']);
      UnspacedNone(msg[..5]);
      assert msg[..5] + msg[5..] == msg;
    } else if msg != [] {
      UnspacedConcat(msg, ['\n']);
      UnspacedNone(msg);
    }
  }

  // -------------------------------------------------------------------
  // The kind-and-notches token of a rotor description
  // -------------------------------------------------------------------

  /** The rotor kind a token names: `N` a fixed rotor, `M` a moving rotor
      whose notches are the rest of the token, `R` a reflector.  The notch
      letters of `N`, `M` and `R` tokens must not repeat; a reflector takes
      no notches; an empty token is a crash (its first character is read). */
  function KindOf(token: seq<char>): (r: Result<Kind>)
    ensures r.Success? ==> |token| > 0 && token[0] in "NMR" && !Repeated(token, 1)
  {
    if |token| == 0 then Failure(Crash)
    else if token[0] in "NMR" && Repeated(token, 1) then Failure(DuplicateNotch)
    else if token[0] == 'N' then Success(Fixed)
    else if token[0] == 'M' then Success(Moving(token[1..]))
    else if token[0] == 'R' then (if |token| > 1 then Failure(NotchOnReflector) else Success(Reflector))
    else Failure(UnknownRotorKind)
  }

  /** The token that describes a kind. */
  function TokenOf(k: Kind): (t: seq<char>)
    ensures |t| >= 1
  {
    match k
    case Reflector => "R"
    case Fixed => "N"
    case Moving(notches) => ['M'] + notches
  }

  /** Checks the first letter, the notch letters and the reflector's lack of notches. */
  method CheckKind(typeNotch: seq<char>) returns (r: Result<Kind>)
    ensures r == KindOf(typeNotch)
  {
    if |typeNotch| == 0 {
      return Failure(Crash);
    }
    var errorCheck := typeNotch[0];
    if errorCheck == 'N' || errorCheck == 'M' || errorCheck == 'R' {
      var duplicate := HasRepeat(typeNotch, 1);
      if duplicate {
        return Failure(DuplicateNotch);
      }
    }
    if typeNotch[0] == 'N' {
      return Success(Fixed);
    }
    if typeNotch[0] == 'M' {
      return Success(Moving(typeNotch[1..]));
    }
    if typeNotch[0] == 'R' {
      if |typeNotch| > 1 {
        return Failure(NotchOnReflector);
      }
      return Success(Reflector);
    }
    return Failure(UnknownRotorKind);
  }

  /** Every kind with notches that do not repeat is read back from its own token. */
  lemma KindOfToken(k: Kind)
    requires k.Moving? ==> !Repeated(k.notches, 0)
    ensures KindOf(TokenOf(k)) == Success(k)
  {
    if k.Moving? {
      var t := TokenOf(k);
      assert t[1..] == k.notches;
    }
  }

  /** A token that is accepted is the token of its kind, except that a fixed
      rotor's token may carry notch letters, which are dropped; the notches of
      an accepted moving rotor never repeat. */
  lemma TokenOfKind(token: seq<char>)
    requires KindOf(token).Success?
    ensures var k := KindOf(token).value;
      (token[0] == 'N' <==> k == Fixed) && (token[0] != 'N' ==> TokenOf(k) == token)
    ensures var k := KindOf(token).value;
      k.Moving? ==> !Repeated(k.notches, 0)
  {
    var k := KindOf(token).value;
    if k.Moving? {
      assert ['M'] + token[1..] == token;
    }
  }

  // -------------------------------------------------------------------
  // Reading a setting line
  // -------------------------------------------------------------------

  /** The tokens ss[k..] that contain an opening parenthesis, taken from the
      last one back and each followed by a space. */
  function Gathered(ss: seq<seq<char>>, k: nat): (r: seq<char>)
    requires 1 <= k <= |ss|
    ensures r == [] <==> forall j | k <= j < |ss| :: '(' !in ss[j]
    ensures '(' in r <==> exists j | k <= j < |ss| :: '(' in ss[j]
    decreases |ss| - k
  {
    if k == |ss| then []
    else Gathered(ss, k + 1) + (if '(' in ss[k] then ss[k] + [' '] else [])
  }

  /** `s` with every parenthesis deleted. */
  function Unparen(s: seq<char>): (r: seq<char>)
    ensures '(' !in r && ')' !in r
    ensures forall c | c in r :: c in s
    ensures '(' !in s && ')' !in s ==> r == s
    decreases |s|
  {
    if s == [] then []
    else (if s[0] in "()" then [] else [s[0]]) + Unparen(s[1..])
  }

  /** Deleting parentheses from a concatenation deletes them from each part,
      so every other character keeps its order. */
  lemma {:induction false} UnparenConcat(a: seq<char>, b: seq<char>)
    ensures Unparen(a + b) == Unparen(a) + Unparen(b)
  {
    if a != [] {
      var x, t := a[0], a[1..];
      var h: seq<char> := if x in "()" then [] else [x];
      assert a == [x] + t;
      assert a + b == [x] + (t + b);
      calc {
        Unparen(a + b);
        { UnparenCons(x, t + b); }
        h + Unparen(t + b);
        { UnparenConcat(t, b); }
        h + (Unparen(t) + Unparen(b));
        (h + Unparen(t)) + Unparen(b);
        { UnparenCons(x, t); }
        Unparen(a) + Unparen(b);
      }
    } else {
      assert a + b == b;
    }
  }

  /** One character, kept unless it is a parenthesis, then the rest. */
  lemma UnparenCons(x: char, s: seq<char>)
    ensures Unparen([x] + s) == (if x in "()" then [] else [x]) + Unparen(s)
  {
    assert ([x] + s)[1..] == s;
  }

  /** The cycle string of the plugboard a setting line describes. */
  function PlugText(ss: seq<seq<char>>): seq<char>
    requires |ss| >= 1
  {
    Unparen(Gathered(ss, 1))
  }

  /** Whether the token after the positions is a ring setting: it has no
      opening parenthesis and one character per non-reflector slot. */
  predicate RingApplies(ss: seq<seq<char>>, n: int) {
    n >= 1 && |ss| > n + 2 && '(' !in ss[n + 2] && |ss[n + 2]| == n - 1
  }

  /** Every plugboard piece pairs at most two characters. */
  predicate PairsOnly(text: seq<char>) {
    forall k | 0 <= k < |Split(text)| :: |Split(text)[k]| <= 2
  }

  /** The checks on the leading `*`, the token count and the rotor names,
      made before and after the named rotors are inserted into slots `sl0`. */
  function NamesVerdict(m: Machine, sl0: seq<Option<nat>>, ss: seq<seq<char>>): (o: Outcome)
    requires m.Catalogue() && m.Slots(sl0)
    ensures o.Pass? ==> |ss| > m.numRotors && ss[0] == "*"
    ensures o.Pass? ==> forall i, j | 1 <= i < j <= m.numRotors :: ss[i] != ss[j]
    ensures o.Pass? ==> var sl := m.Inserted(sl0, ss[1..m.numRotors + 1], m.numRotors);
              m.Slots(sl) && m.ReflectorIn(sl, 0) && m.MovingIn(sl, m.numRotors - 1)
  {
    var n := m.numRotors;
    if |ss| == 0 then Fail(Crash)
    else if ss[0] != "*" then Fail(BadFormat)
    else if |ss| < n + 1 then Fail(Crash)
    else
      var sl := m.Inserted(sl0, ss[1..n + 1], n);
      assert m.Slots(sl);
      if !m.MovingIn(sl, n - 1) then Fail(FinalNotMoving)
      else if !m.ReflectorIn(sl, 0) then Fail(FirstNotReflector)
      else if Repeated(ss[1..n + 1], 0) then Fail(DuplicateRotor)
      else Pass
  }

  /** The checks on the positions token and the ring token, for slot contents `sl`. */
  function SettingVerdict(m: Machine, sl: seq<Option<nat>>, ss: seq<seq<char>>): (o: Outcome)
    requires m.Catalogue() && m.Slots(sl) && |ss| >= m.numRotors + 1
    ensures o.Pass? ==> |ss| > m.numRotors + 1
    ensures o.Pass? ==> forall c | c in ss[m.numRotors + 1] :: c in m.alphabet && c != '(' && c != ')'
  {
    var n := m.numRotors;
    if |ss| < n + 2 then Fail(Crash)
    else if '(' in ss[n + 1] || ')' in ss[n + 1] then Fail(ParenthesisInSetting)
    else if !m.AllIn(ss[n + 1]) then Fail(NotInAlphabet)
    else if m.Reach(sl, |ss[n + 1]|, 0) != |ss[n + 1]| then Fail(Crash)
    else if RingApplies(ss, n) && exists t | 1 <= t < n :: sl[t].None? then Fail(Crash)
    else Pass
  }

  /** The check on the plugboard pieces. */
  function PlugVerdict(ss: seq<seq<char>>): Outcome
    requires |ss| >= 1
  {
    if PairsOnly(PlugText(ss)) then Pass else Fail(BadPlugboard)
  }

  /** The verdict on the setting line `settings` for machine `m` whose slots
      held `sl0`, check by check in the order they are made. */
  function Verdict(m: Machine, sl0: seq<Option<nat>>, settings: seq<char>): Outcome
    requires m.Catalogue() && m.Slots(sl0)
  {
    var ss := Split(settings);
    var names := NamesVerdict(m, sl0, ss);
    if names.Fail? then names
    else
      var setting := SettingVerdict(m, m.Inserted(sl0, ss[1..m.numRotors + 1], m.numRotors), ss);
      if setting.Fail? then setting else PlugVerdict(ss)
  }

  /** Checks the leading `*` and the rotor names, inserting the named rotors. */
  method LoadRotors(m: Machine, splitSet: seq<seq<char>>) returns (o: Outcome)
    requires m.Valid()
    modifies m`slots
    ensures m.Valid()
    ensures o == NamesVerdict(m, old(m.slots), splitSet)
    ensures o == Pass ==>
      |splitSet| >= m.numRotors + 1 && m.slots == m.Inserted(old(m.slots), splitSet[1..m.numRotors + 1], m.numRotors)
  {
    if |splitSet| == 0 {
      return Fail(Crash);
    }
    if splitSet[0] != "*" {
      return Fail(BadFormat);
    }
    var n := m.numRotors;
    if |splitSet| < n + 1 {
      return Fail(Crash);
    }
    var rotorNames := splitSet[1..n + 1];
    o := m.InsertRotors(rotorNames);
    if o.Fail? {
      return;
    }
    var repeated := HasRepeat(rotorNames, 0);
    if repeated {
      return Fail(DuplicateRotor);
    }
  }

  /** The positions after the positions token of a setting line, from `s0`. */
  function PositionsAfter(m: Machine, sl: seq<Option<nat>>, s0: seq<int>, ss: seq<seq<char>>): seq<int>
    requires m.Catalogue() && m.Slots(sl) && |s0| == |m.allRotors| && |ss| >= m.numRotors + 2
    requires m.Reach(sl, |ss[m.numRotors + 1]|, 0) == |ss[m.numRotors + 1]|
  {
    m.Assigned(sl, s0, ss[m.numRotors + 1], |ss[m.numRotors + 1]|)
  }

  /** The rings after the ring token of a setting line, if there is one, from `g0`. */
  function RingsAfter(m: Machine, sl: seq<Option<nat>>, g0: seq<int>, ss: seq<seq<char>>): seq<int>
    requires m.Catalogue() && m.Slots(sl) && |g0| == |m.allRotors|
    requires RingApplies(ss, m.numRotors) ==> forall t | 1 <= t < m.numRotors :: sl[t].Some?
  {
    if RingApplies(ss, m.numRotors) then m.Assigned(sl, g0, ss[m.numRotors + 2], m.numRotors - 1) else g0
  }

  /** Checks and applies the positions token, then the ring token if there is one. */
  method LoadSettings(m: Machine, splitSet: seq<seq<char>>) returns (o: Outcome)
    requires m.Valid() && |splitSet| >= m.numRotors + 1
    modifies m.allRotors`setting, m.allRotors`ring
    ensures m.Valid()
    ensures o == SettingVerdict(m, m.slots, splitSet)
    ensures o == Pass ==>
      && |splitSet| >= m.numRotors + 2
      && m.Reach(m.slots, |splitSet[m.numRotors + 1]|, 0) == |splitSet[m.numRotors + 1]|
      && m.Positions() == PositionsAfter(m, m.slots, old(m.Positions()), splitSet)
    ensures o == Pass ==>
      && (RingApplies(splitSet, m.numRotors) ==> forall t | 1 <= t < m.numRotors :: m.slots[t].Some?)
      && m.Rings() == RingsAfter(m, m.slots, old(m.Rings()), splitSet)
  {
    var n := m.numRotors;
    if |splitSet| < n + 2 {
      return Fail(Crash);
    }
    var setting := splitSet[n + 1];
    if '(' in setting || ')' in setting {
      return Fail(ParenthesisInSetting);
    }
    o := m.SetRotors(setting);
    if o.Fail? {
      return;
    }
    assert m.AllIn(setting) && m.Reach(m.slots, |setting|, 0) == |setting|;
    ghost var s1 := m.Positions();
    assert s1 == PositionsAfter(m, m.slots, old(m.Positions()), splitSet);
    assert m.Rings() == old(m.Rings());
    if |splitSet| > n + 2 {
      var c := splitSet[n + 2];
      if '(' !in c && |c| == n - 1 {
        assert RingApplies(splitSet, n);
        o := m.SetRings(c);
        assert m.Positions() == s1;
        return;
      }
    }
    assert !RingApplies(splitSet, n);
  }

  /** Gathers the parenthesised tokens into a cycle string, checks that every
      piece is a pair at most, and installs the plugboard it describes. */
  method LoadPlugboard(m: Machine, splitSet: seq<seq<char>>) returns (o: Outcome)
    requires m.Valid() && |splitSet| >= 1
    modifies m`plugboard
    ensures m.Valid()
    ensures o == PlugVerdict(splitSet)
    ensures o == Pass ==>
      && m.plugboard != null && m.plugboard.alphabet == m.alphabet
      && m.plugboard.perm == Build(PlugText(splitSet), m.alphabet)
  {
    var permuteAdd: seq<char> := [];
    var i := |splitSet| - 1;
    while i > 0
      invariant 0 <= i < |splitSet|
      invariant permuteAdd == Gathered(splitSet, i + 1)
    {
      if '(' in splitSet[i] {
        permuteAdd := permuteAdd + splitSet[i] + [' '];
      }
      i := i - 1;
    }
    permuteAdd := Unparen(permuteAdd);
    var permuteAddArray := Split(permuteAdd);
    for k := 0 to |permuteAddArray|
      invariant forall t | 0 <= t < k :: |permuteAddArray[t]| <= 2
    {
      if |permuteAddArray[k]| > 2 {
        return Fail(BadPlugboard);
      }
    }
    var p := new Permutation(permuteAdd, m.alphabet);
    m.SetPlugboard(p);
    return Pass;
  }

  /** Reads the setting line `settings` (`* reflector rotors... positions
      [rings] (plugboard pairs)...`) into machine `m`. */
  method SetUp(m: Machine, settings: seq<char>) returns (o: Outcome)
    requires m.Valid()
    modifies m, m.allRotors`setting, m.allRotors`ring
    ensures m.Valid()
    ensures o == Verdict(m, old(m.slots), settings)
    ensures o == Pass ==> Configured(m, old(m.slots), old(m.Positions()), old(m.Rings()), Split(settings))
  {
    var splitSet := Split(settings);
    o := LoadRotors(m, splitSet);
    if o.Fail? {
      return;
    }
    o := LoadSettings(m, splitSet);
    if o.Fail? {
      return;
    }
    o := LoadPlugboard(m, splitSet);
  }

  /** The state a successful setup leaves: the named rotors in the slots, the
      positions and rings the tokens give, and the plugboard the pairs describe. */
  ghost predicate Configured(m: Machine, sl0: seq<Option<nat>>, s0: seq<int>, g0: seq<int>, ss: seq<seq<char>>)
    reads m, m.allRotors
  {
    var n := m.numRotors;
    && m.Valid() && m.Slots(sl0) && |s0| == |g0| == |m.allRotors| && |ss| >= n + 2
    && m.slots == m.Inserted(sl0, ss[1..n + 1], n)
    && m.Reach(m.slots, |ss[n + 1]|, 0) == |ss[n + 1]|
    && m.Positions() == PositionsAfter(m, m.slots, s0, ss)
    && (RingApplies(ss, n) ==> forall t | 1 <= t < n :: m.slots[t].Some?)
    && m.Rings() == RingsAfter(m, m.slots, g0, ss)
    && m.plugboard != null && m.plugboard.alphabet == m.alphabet
    && m.plugboard.perm == Build(PlugText(ss), m.alphabet)
  }

  /** A string without parentheses is its own cleaned form. */
  lemma CleanedWithoutParens(text: seq<char>)
    requires '(' !in text && ')' !in text
    ensures Cleaned(text) == text
  {
    forall i | 0 <= i < |text|
      ensures Cleaned(text)[i] == text[i]
    {
      assert text[i] in text;
    }
  }

  /** A plugboard read from a setting line whose pieces are pairs of distinct,
      disjoint alphabet characters swaps each pair: it is its own inverse. */
  lemma PlugboardSwaps(m: Machine, ss: seq<seq<char>>)
    requires m.Valid() && |ss| >= 1 && Distinct(m.alphabet)
    requires m.plugboard != null && m.plugboard.alphabet == m.alphabet
    requires m.plugboard.perm == Build(PlugText(ss), m.alphabet)
    requires PlugVerdict(ss) == Pass && DisjointCycles(Tokens(PlugText(ss)), m.alphabet)
    ensures m.plugboard.IndexInvolution()
  {
    var text := PlugText(ss);
    CleanedWithoutParens(text);
    assert Tokens(text) == Split(text);
    forall c | c in m.alphabet
      ensures m.plugboard.perm[c] in m.alphabet && m.plugboard.perm[m.plugboard.perm[c]] == c
    {
      PairsInvolution(text, m.alphabet, c);
      BuildClosed(text, m.alphabet, c);
    }
    m.plugboard.InvolutionOnIndices();
  }

  /** Distinct rotor names that all name catalogue rotors fill every slot,
      each with a different rotor. */
  lemma InsertedDistinct(m: Machine, sl0: seq<Option<nat>>, names: seq<seq<char>>)
    requires m.Catalogue() && m.Slots(sl0) && |names| == m.numRotors
    requires !Repeated(names, 0)
    requires forall t | 0 <= t < |names| :: m.LastNamed(names[t], |m.allRotors|).Some?
    ensures var sl := m.Inserted(sl0, names, |names|);
      m.Full(sl) && forall a, b | 0 <= a < b < |sl| :: sl[a] != sl[b]
  {
    var sl := m.Inserted(sl0, names, |names|);
    forall a, b | 0 <= a < b < |sl|
      ensures sl[a] != sl[b]
    {
      assert names[a] != names[b];
      assert m.allRotors[sl[a].value].name == names[a];
    }
  }
}
