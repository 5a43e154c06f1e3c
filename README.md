# Enigma cipher engine in Dafny

This project models the cipher engine of a Java Enigma simulator and proves
properties of the model. The engine has five parts:

- **Alphabet** (`alphabet.dfy`, module `Alphabets`): the character table. The
  source never changes its string, so the alphabet is the `seq<char>` itself
  and every operation is a function.
- **Permutation** (`permutation.dfy`, module `Permutations`): a mapping built
  from cycle notation such as `(GRL) (HI)`. The class keeps the map the
  constructor fills. The functions `Build`, `CycleMap` and `FillPrefix` say
  what that map holds, and the lemmas prove that disjoint cycles give a
  bijection. `InvertChar` and `Derangement` search the map's keys in an order
  left open, as the Java code iterates a hash map.
- **Rotor** (`rotor.dfy`, module `Rotors`): one class with a kind tag
  (`Reflector`, `Fixed`, `Moving(notches)`) stands for the Java rotor classes.
  The rotor has a mutable position (`setting`) and ring setting (`ring`).
- **Machine** (`machine.dfy`, module `Machines`): a catalogue of rotor objects
  and slots that hold catalogue indices (`Option<nat>`, `None` for an empty
  slot), plus a plugboard.
  - Two slots naming the same catalogue rotor share its position, as two
    entries of the Java active-rotor array do.
  - The stepping rule is a set of functions of the slot contents and the
    catalogue positions (`Queue`, `Step`, `StepN`); so is the conversion
    pipeline (`Forward`, `Backward`, `PipelineAt`).
  - The methods (`Convert`, `ConvertString`, `InsertRotors`, `SetRotors`,
    `SetRings`) change the machine and are proved against those functions.
  - `machine_facts.dfy` (module `MachineFacts`) proves:
    - which slots a step advances, and by how much each rotor moves;
    - that converting twice in the same state gives the input back;
    - that with a fixed-point-free reflector no character becomes itself.
- **Driver** (`driver.dfy`, module `Driver`): three string-level jobs of the
  command-line driver:
  - printing a converted line in blocks of five;
  - checking a rotor's kind-and-notches token;
  - reading a `*` setting line into a machine.

  `SetUp` runs its checks in the same order as the Java code. Its contract
  says which error each setting line yields (`Verdict`) and, when it succeeds,
  the exact state it leaves (`Configured`).

Errors the Java code raises as exceptions are `Failure`/`Fail` values of the
`Error` datatype in `wrappers.dfy`. `Crash` stands for a runtime exception
the program does not catch, such as an index out of bounds or a null slot.

## Model

| member | source | states |
|---|---|---|
| Alphabets.Size | enigma/Alphabet.java:21-23 | the size is the length of the character string |
| Alphabets.Contains | enigma/Alphabet.java:26-28 | true exactly when some position of the string holds the character |
| Alphabets.ToChar | enigma/Alphabet.java:30-34 | for an index in 0..size-1 the result is a character of the alphabet |
| Alphabets.IndexFromFinds | enigma/Alphabet.java:38-45 | the search loop of toInt finds an occurrence of a member and gives 0 when the character does not occur |
| Alphabets.IndexFromIsFirst | enigma/Alphabet.java:38-43 | the search returns at the first match: no earlier position holds the character |
| Alphabets.ToInt | enigma/Alphabet.java:38-45 | over a non-empty alphabet the index is in 0..size-1, members and non-members alike |
| Alphabets.ToIntOfMember | enigma/Alphabet.java:36-45 | for every member c, toChar(toInt(c)) == c |
| Alphabets.ToIntOfNonMember | enigma/Alphabet.java:44 | toInt of a character outside the alphabet is 0, not a failure |
| Alphabets.ToIntIsFirst | enigma/Alphabet.java:38-43 | toInt gives the first occurrence of a member |
| Alphabets.DefaultAlphabet | enigma/Alphabet.java:15-18 | the default alphabet has 26 characters, character k is 'A' + k, and none repeats |
| Alphabets.DistinctAt | enigma/Alphabet.java:9-10 | in an alphabet where toInt(toChar(i)) == i for every i, different positions hold different characters |
| Alphabets.DistinctIff | enigma/Alphabet.java:9-10 | toInt(toChar(i)) == i for every index exactly when no character is duplicated |
| Permutations.PiecesWithoutSpace | enigma/Permutation.java:21 | splitting a string without a space gives that string alone |
| Permutations.PiecesAtSpace | enigma/Permutation.java:21 | splitting gives the text before the first space, then the pieces of the rest |
| Permutations.Split | enigma/Permutation.java:21 | Java's `split(" ")`: no piece contains a space, and every character of a piece comes from the string |
| Permutations.DropTrailingEmpty | enigma/Permutation.java:21 | split drops only trailing empty pieces: the result is a prefix whose last piece is non-empty |
| Permutations.Cleaned | enigma/Permutation.java:21 | each parenthesis becomes a space and every other character is kept in place |
| Permutations.Tokens | enigma/Permutation.java:21 | the cycles read from the cycle string contain no space and no parenthesis |
| Permutations.Build | enigma/Permutation.java:17-30 | the map the constructor fills: the cycles, then every unmapped alphabet character to itself; its meaning is proved in BuildLookup |
| Permutations.Preimage | enigma/Permutation.java:88-98 | the result is an alphabet character whose image is c when there is one, and c itself when there is none |
| Permutations.BijectionInjective | enigma/Permutation.java:17-44 | a map that is a bijection of the alphabet sends different characters to different images |
| Permutations.AddCyclePrefixDomain | enigma/Permutation.java:36-44 | after the first k characters of a cycle are added, the keys are the old keys plus those characters |
| Permutations.AddCyclePrefixLookup | enigma/Permutation.java:36-44 | in a cycle without repeats, c_j maps to c_(j+1), the last maps to the first, and other keys keep their images |
| Permutations.AddCyclePrefixKeeps | enigma/Permutation.java:36-44 | adding a cycle leaves the entry of every character outside it unchanged |
| Permutations.AddCyclePrefixSuccessors | enigma/Permutation.java:36-44 | in a cycle without repeats, each added character maps to the next one, the last to the first |
| Permutations.CycleMapDomain | enigma/Permutation.java:21-24 | after every cycle is added, the keys are exactly the characters listed in some cycle |
| Permutations.CycleMapValueAt | enigma/Permutation.java:22-24 | with disjoint cycles, each listed character maps to its successor in its own cycle |
| Permutations.CycleMapValues | enigma/Permutation.java:22-24 | the same for every listed character at once |
| Permutations.CycleMapLookup | enigma/Permutation.java:22-24 | keys are the listed characters and each maps to its successor |
| Permutations.FillPrefixLookup | enigma/Permutation.java:26-30 | the fill loop adds the missing alphabet characters as fixed points and keeps every entry already there |
| Permutations.BuildLookup | enigma/Permutation.java:17-44 | with disjoint cycles over the alphabet, the keys are exactly the alphabet, c_j maps to c_(j+1) with wrap-around, and an unlisted character maps to itself |
| Permutations.BuildInjectiveAt | enigma/Permutation.java:17-44 | different alphabet characters get different images |
| Permutations.BuildSurjectiveAt | enigma/Permutation.java:17-44 | every alphabet character is the image of some alphabet character |
| Permutations.BuildPreimage | enigma/Permutation.java:17-44 | every alphabet character is the image of its preimage |
| Permutations.BuildClosed | enigma/Permutation.java:17-44 | an alphabet character maps into the alphabet |
| Permutations.BuildIsBijection | enigma/Permutation.java:17-44 | cycle construction over disjoint cycles gives a bijection of the alphabet |
| Permutations.BuildDomain | enigma/Permutation.java:17-44 | the keys of the built map are exactly the alphabet |
| Permutations.BuildClosedAll | enigma/Permutation.java:17-44 | every image is in the alphabet |
| Permutations.BuildInjective | enigma/Permutation.java:17-44 | the preimage search undoes the built map on every key |
| Permutations.BuildPreimageAll | enigma/Permutation.java:17-44 | the built map undoes the preimage search on every alphabet character |
| Permutations.PairsInvolution | enigma/Permutation.java:36-44 | when every cycle has at most two characters, the built map is its own inverse |
| Permutations.JavaRem | enigma/Permutation.java:48 | Java's truncating remainder lies strictly between -n and n |
| Permutations.WrapIsEuclidean | enigma/Permutation.java:47-53 | adding the size to a negative truncated remainder gives the Euclidean remainder |
| Permutations.Permutation.constructor | enigma/Permutation.java:17-32 | the map built by the two loops is Build(cycles, alphabet), with an entry for every alphabet character |
| Permutations.Permutation.AddCycle | enigma/Permutation.java:36-44 | the loop puts every entry of the cycle into the map, in order (AddCyclePrefix) |
| Permutations.Permutation.Size | enigma/Permutation.java:56-58 | the permutation's size is its alphabet's size |
| Permutations.Permutation.Wrap | enigma/Permutation.java:47-53 | wrap(p) is in 0..size-1 for every p, negative p included |
| Permutations.Permutation.WrapIsMod | enigma/Permutation.java:47-53 | wrap(p) is congruent to p: it equals p mod size |
| Permutations.Permutation.PermuteChar | enigma/Permutation.java:80-85 | fails exactly for a character outside the alphabet, otherwise gives the map's entry |
| Permutations.Permutation.PermuteIndex | enigma/Permutation.java:62-67 | permute(int) gives an index in 0..size-1 for every argument |
| Permutations.Permutation.PermuteIndexImage | enigma/Permutation.java:62-67 | the character at the result is the image of the character at p mod size |
| Permutations.Permutation.InverseIndex | enigma/Permutation.java:71-76 | invert(int) gives an index in 0..size-1 for every argument |
| Permutations.Permutation.InverseIndexImage | enigma/Permutation.java:71-76 | the character at the result maps to the character at p mod size |
| Permutations.Permutation.InverseOfImage | enigma/Permutation.java:88-98 | for a bijection, invert(permute(c)) == c on characters |
| Permutations.Permutation.ImageOfInverse | enigma/Permutation.java:88-98 | for a bijection, permute(invert(c)) == c on characters |
| Permutations.Permutation.InvertAfterPermuteIndex | enigma/Permutation.java:62-76 | over distinct characters, invert(permute(i)) == i on indices |
| Permutations.Permutation.PermuteAfterInvertIndex | enigma/Permutation.java:62-76 | over distinct characters, permute(invert(i)) == i on indices |
| Permutations.Permutation.InvolutionOnIndices | enigma/Permutation.java:62-67 | a map that is its own inverse on characters is its own inverse on indices |
| Permutations.Permutation.BijectionOnIndices | enigma/Permutation.java:62-76 | a bijection on characters makes permute and invert on indices undo each other |
| Permutations.Permutation.DerangementOnIndices | enigma/Permutation.java:107-114 | over distinct characters, a map that keeps the alphabet closed and has no fixed point moves every index: the derangement test carries over to indices |
| Permutations.Permutation.InvertChar | enigma/Permutation.java:88-98 | fails exactly outside the alphabet; otherwise returns a key that maps to c, or c itself when no key does; for a bijection it is the inverse |
| Permutations.Permutation.Inverse | enigma/Permutation.java:88-98 | the inverse searched in alphabet order: a character of the alphabet that maps to c, or c itself |
| Permutations.Permutation.InvertIndex | enigma/Permutation.java:71-76 | the result is in 0..size-1 and, for a bijection, is the inverse image of wrap(p) |
| Permutations.Permutation.Derangement | enigma/Permutation.java:107-114 | true exactly when no entry maps a character to itself |
| Rotors.SteppedIsSum | enigma/MovingRotor.java:26-28 | k single steps move a position k places, modulo the size |
| Rotors.Stepped | enigma/MovingRotor.java:26-28 | k single steps from a position on the wheel stay on the wheel |
| Rotors.FullTurn | enigma/MovingRotor.java:26-28 | after as many steps as the alphabet has characters, the position is back where it started |
| Rotors.Rotor.constructor | enigma/MovingRotor.java:15-18 | a rotor has the given name, kind and wiring, and starts at position 0 |
| Rotors.Rotor.Rotates | enigma/MovingRotor.java:20-23 | a rotor rotates exactly when it is a moving rotor |
| Rotors.Rotor.NotchAt | enigma/MovingRotor.java:30-34 | at a given position, true exactly for a moving rotor whose notch string holds the character at that position |
| Rotors.Rotor.AtNotch | enigma/MovingRotor.java:30-34 | atNotch is true exactly when the character at the current position is in the notch string |
| Rotors.Rotor.Set | enigma/MovingRotor.java:27 | the position becomes the given one and nothing else changes |
| Rotors.Rotor.SetChar | enigma/Machine.java:70 | the position becomes toInt(c), which shows c when c is a member |
| Rotors.Rotor.SetRingSetting | enigma/Main.java:241 | the ring becomes toInt(c), which shows c when c is a member |
| Rotors.Rotor.Advance | enigma/MovingRotor.java:25-28 | a moving rotor's position becomes (position + 1) mod size and stays in range; the other kinds stay put; only the position changes |
| Rotors.Rotor.ForwardAt | enigma/Machine.java:101 | forward conversion gives a contact in 0..size-1 |
| Rotors.Rotor.BackwardAt | enigma/Machine.java:104 | backward conversion gives a contact in 0..size-1 |
| Rotors.Rotor.BackwardUndoesForward | enigma/Machine.java:100-105 | with a bijective wiring, converting backward undoes converting forward, at every position and ring |
| Rotors.Rotor.ForwardUndoesBackward | enigma/Machine.java:100-105 | with a bijective wiring, converting forward undoes converting backward |
| Rotors.Rotor.ForwardInvolution | enigma/Machine.java:100-105 | a wiring that is its own inverse (a reflector) sends a contact back to itself after two forward conversions |
| Rotors.Rotor.ForwardMoves | enigma/Machine.java:100-105 | a wiring without fixed points never converts a contact to itself |
| Machines.Machine.constructor | enigma/Machine.java:16-23 | the machine keeps its alphabet, sizes and catalogue, has every slot empty and no plugboard |
| Machines.Machine.Scanned | enigma/Machine.java:86-92 | the scan from slot n-2 down to m+1 only queues slots in that range |
| Machines.Machine.Queued | enigma/Machine.java:87-89 | only a notch queues a slot: its own (with a rotating left neighbour) or its right neighbour's, and a right neighbour at its notch always queues it |
| Machines.Machine.Queue | enigma/Machine.java:86-92 | only slots 1..n-2 are queued: never the reflector's slot, never the last |
| Machines.Machine.AdvanceOne | enigma/Machine.java:95 | advancing one slot keeps every position in range |
| Machines.Machine.Advanced | enigma/Machine.java:94-96 | advancing the queued slots keeps every position in range |
| Machines.Machine.AdvancedSnoc | enigma/Machine.java:94-98 | advancing the queue and then the last slot is advancing the queue followed by the last slot |
| Machines.Machine.Step | enigma/Machine.java:85-98 | one step keeps every position in range |
| Machines.Machine.StepN | enigma/Machine.java:116-117 | any number of steps keeps every position in range |
| Machines.Machine.PipelineAt | enigma/Machine.java:82-110 | the conversion gives an index in 0..size-1 |
| Machines.Machine.Forward | enigma/Machine.java:100-102 | the contact reached going in through slots n-1 down to i stays in 0..size-1 |
| Machines.Machine.Backward | enigma/Machine.java:103-105 | the contact reached going back out through slots i up to n-1 stays in 0..size-1 |
| Machines.Machine.QueueSlots | enigma/Machine.java:85-92 | the advance list is the queue decided from the positions before any rotor moves |
| Machines.Machine.AdvanceSlot | enigma/Machine.java:95 | only the rotor in the given slot moves, one place if it is a moving rotor |
| Machines.Machine.AdvanceQueued | enigma/Machine.java:94-96 | the queued slots advance one after another, aliasing included |
| Machines.Machine.StepRotors | enigma/Machine.java:85-98 | the new positions are Step of the old: queued slots advance, then the last slot |
| Machines.Machine.ForwardPass | enigma/Machine.java:100-102 | the loop over slots n-1 down to 0 computes Forward |
| Machines.Machine.BackwardPass | enigma/Machine.java:103-105 | the loop over slots 1 up to n-1 computes Backward |
| Machines.Machine.Convert | enigma/Machine.java:82-110 | convert steps the rotors exactly once and then converts through plugboard, rotors right to left, reflector, rotors left to right and plugboard, at the new positions; rings are unchanged |
| Machines.Machine.LastNamed | enigma/Machine.java:42-49 | a rotor found for a name carries that name |
| Machines.Machine.LastNamedIsLast | enigma/Machine.java:42-49 | the slot gets the last catalogue rotor with that name, and no rotor only when none has that name |
| Machines.Machine.Inserted | enigma/Machine.java:42-49 | filling slots by name keeps one entry per slot |
| Machines.Machine.InsertRotors | enigma/Machine.java:38-58 | fails on a name count other than numRotors; otherwise fills slot i with the last rotor named names[i] and passes exactly when the last slot holds a moving rotor and slot 0 a reflector, with those errors in that order |
| Machines.Machine.Reach | enigma/Machine.java:69-71 | the number of setting characters that find a slot: every slot it passes holds a rotor, and it stops at the string's end, the last slot or an empty slot |
| Machines.Machine.ReachStops | enigma/Machine.java:69-71 | the count is exactly m when slots up to m hold rotors and slot m+1 does not take a character |
| Machines.Machine.Assigned | enigma/Machine.java:69-71 | assigning the characters' indices to the rotors of slots 1..m keeps positions in range |
| Machines.Machine.AssignedUntouched | enigma/Machine.java:69-71 | slot 0's rotor, and any rotor in none of slots 1..m, keeps its position |
| Machines.Machine.AssignedLatest | enigma/Machine.java:69-71 | the rotor of slot t shows c[t-1] unless a later slot among 1..m holds the same rotor |
| Machines.Machine.SetSlot | enigma/Machine.java:70 | only the rotor in the given slot changes position, to toInt(ch) |
| Machines.Machine.SetRingSlot | enigma/Main.java:241 | only the ring of the rotor in the given slot changes, to toInt(ch) |
| Machines.Machine.InAlphabet | enigma/Machine.java:64-68 | true exactly when every character of the setting is in the alphabet |
| Machines.Machine.SetRotors | enigma/Machine.java:63-72 | a character outside the alphabet fails before any position changes; otherwise slot i+1 takes setting[i], never slot 0, for as long as slots hold rotors, and the call passes exactly when every character found a slot, crashing otherwise |
| Machines.Machine.SetRings | enigma/Main.java:240-242 | passes exactly when slots 1..n-1 all hold rotors, and then the ring of slot i+1 becomes ring[i], a later slot winning for a shared rotor; otherwise it crashes; positions never change |
| Machines.Machine.SetPlugboard | enigma/Machine.java:75-77 | the plugboard becomes the given permutation, and only the plugboard field changes |
| Machines.Machine.ConvertString | enigma/Machine.java:114-120 | the output has the message's length; character i is converted after i+1 steps, left to right |
| MachineFacts.ScannedIff | enigma/Machine.java:86-92 | the scan queues exactly the slots in its range that meet the stepping condition |
| MachineFacts.ScannedDecreasing | enigma/Machine.java:86-92 | the scan lists slots from the right, each once |
| MachineFacts.QueueIff | enigma/Machine.java:86-92 | slot i is queued exactly when 1 <= i <= n-2 and (i is at a notch and i-1 rotates, or i+1 is at a notch), each once, right to left |
| MachineFacts.DoubleStep | enigma/Machine.java:86-92 | the double step: a middle slot at its notch with a rotating left neighbour moves, a slot whose right neighbour is at a notch moves, and a slot with neither notch stays |
| MachineFacts.AdvancedAt | enigma/Machine.java:94-96 | a moving catalogue rotor moves once per queued slot that holds it, and any other rotor stays put |
| MachineFacts.StepSlots | enigma/Machine.java:85-98 | a step advances each queued slot and the last slot, each exactly once |
| MachineFacts.StepOfSlot | enigma/Machine.java:85-98 | with distinct rotors, the last slot always moves one place, a middle slot moves one place exactly when queued, slot 0 never moves, and a non-moving rotor never moves |
| MachineFacts.StepOfIdle | enigma/Machine.java:85-98 | a catalogue rotor in no slot keeps its position |
| MachineFacts.BackwardUndoesForwardFrom | enigma/Machine.java:100-105 | with bijective wirings, going back through slots i.. undoes going in through them |
| MachineFacts.ForwardUndoesBackwardFrom | enigma/Machine.java:100-105 | with bijective wirings, going in through slots i.. undoes going back through them |
| MachineFacts.PipelineInvolution | enigma/Machine.java:82-110 | with a reciprocal plugboard and reflector, converting twice in the same state gives the index back |
| MachineFacts.PipelineMoves | enigma/Machine.java:82-110 | with a reflector without fixed points, no index is converted to itself |
| MachineFacts.CharRoundTrip | enigma/Machine.java:114-120 | converting a character's output again in the same state gives the character back |
| MachineFacts.MessageRoundTrip | enigma/Machine.java:114-120 | converting a message's output from the same starting positions gives the message back |
| MachineFacts.MessageMoves | enigma/Machine.java:114-120 | with a reflector without fixed points, no character of a message is converted to itself |
| Driver.HasRepeat | enigma/Main.java:219-225 | the nested duplicate search is true exactly when two entries from the start position on are equal |
| Driver.Grouped | enigma/Main.java:266-275 | the printed text has one separator per block of five: length |msg| + ceil(|msg|/5) |
| Driver.PrintMessageLine | enigma/Main.java:266-275 | the loop with the decrementing letter count prints exactly Grouped(msg) |
| Driver.Blocks | enigma/Main.java:267-274 | every block but the last has 5 characters, the last 1 to 5; no blocks exactly for an empty message |
| Driver.BlocksConcat | enigma/Main.java:266-275 | the blocks laid end to end give the message |
| Driver.GroupedIsBlocks | enigma/Main.java:266-275 | the printed text is the blocks separated by single spaces, then a line break; an empty message prints nothing |
| Driver.GroupedUnspaced | enigma/Main.java:266-275 | deleting the spaces from the printed text leaves the message and the line break |
| Driver.KindOf | enigma/Main.java:169-197 | a token is accepted only when its first letter is N, M or R and no notch letter repeats |
| Driver.CheckKind | enigma/Main.java:169-197 | the checks reject repeated notches, notches on a reflector and an unknown first letter, in the source's order, as KindOf says |
| Driver.KindOfToken | enigma/Main.java:169-197 | every kind with non-repeating notches is read back from its own token |
| Driver.TokenOfKind | enigma/Main.java:169-197 | an accepted token is its kind's token, except that a fixed rotor's notch letters are dropped |
| Driver.Unparen | enigma/Main.java:253-254 | the parentheses are deleted, no other character is added, and a string without parentheses is kept unchanged |
| Driver.UnparenConcat | enigma/Main.java:253-254 | deleting parentheses from a concatenation deletes them from each part, so the other characters keep their order |
| Driver.LoadRotors | enigma/Main.java:208-225 | fails unless the first token is `*`, then inserts the named rotors and fails on any repeated name |
| Driver.LoadSettings | enigma/Main.java:230-244 | fails on a parenthesis in the positions token, then sets the positions; a following token without `(` and of length numRotors-1 sets the rings |
| Driver.LoadPlugboard | enigma/Main.java:246-261 | gathers the tokens with `(`, fails when a piece pairs more than two characters, and installs the permutation those cycles build |
| Driver.SetUp | enigma/Main.java:206-262 | the result is the first failing check in source order; on success the slots, positions, rings and plugboard are those the line describes |
| Driver.NamesVerdict | enigma/Main.java:208-225 | the verdict on the leading `*` and the rotor names; a pass means the line starts with `*`, names n pairwise distinct rotors, and leaves a reflector in slot 0 and a moving rotor in the last slot |
| Driver.SettingVerdict | enigma/Main.java:230-244 | the verdict on the positions and ring tokens; a pass means a positions token is present and all its characters are alphabet letters, none a parenthesis |
| Driver.PlugVerdict | enigma/Main.java:255-260 | the plugboard check: passes exactly when every piece pairs at most two characters, and fails with the plugboard error otherwise |
| Driver.Verdict | enigma/Main.java:206-262 | the checks of `setUp` chained in source order, the first failure winning |
| Driver.Gathered | enigma/Main.java:246-251 | collects the tokens with `(`, last first; it is empty exactly when no token from k on has `(`, and holds a `(` exactly when one does |
| Driver.RingApplies | enigma/Main.java:237-239 | a token follows the positions, has no `(`, and has one character per slot after the reflector |
| Driver.PairsOnly | enigma/Main.java:255-260 | every piece of the gathered plugboard text has at most two characters |
| Driver.PlugboardSwaps | enigma/Main.java:246-261 | a plugboard of disjoint pairs is its own inverse |
| PermutationExamples.BacdTokens | enigma/PermutationTest1.java:99-103 | the cycle string `(BACD)` splits into an empty piece and the cycle `BACD` |
| PermutationExamples.BacdBuild | enigma/PermutationTest1.java:112-117 | over `ABCD`, `(BACD)` has every letter as a key and sends A to C, D to B and B to A |
| PermutationExamples.BacdPermute | enigma/PermutationTest1.java:112-117 | permute('A') gives C, permute('D') gives B, and a letter outside `ABCD` is an error |
| PermutationExamples.BacdInverse | enigma/PermutationTest1.java:105-110 | the `(BACD)` map is a bijection, and the reference inverse gives B for A and D for B |
| PermutationExamples.BacdInvert | enigma/PermutationTest1.java:105-110 | invert('A') gives B and invert('B') gives D through the hash-map search |
| PermutationExamples.BacdInvertOutside | enigma/PermutationTest1.java:99-103 | invert('F'), F being outside the alphabet `ABCD`, fails |
| PermutationExamples.IdentityBuild | enigma/PermutationTest1.java:92-97 | an empty cycle string fixes every character of the alphabet |
| PermutationExamples.IdentityIndices | enigma/PermutationTest1.java:71-97 | over the default alphabet, the permutation built from no cycles maps and inverts every index to itself |
| Driver.InsertedDistinct | enigma/Main.java:212-225 | distinct names that all name catalogue rotors fill every slot, each with a different rotor |

## Left out

- Input and output: `main`, the file and stream handling, `readConfig`,
  the `Scanner` in `readRotor` and the printing itself. `PrintMessageLine`
  returns the text it would print.
- The bodies of the base `Rotor`, `FixedRotor`, `Reflector` and
  `EnigmaException` classes are not part of this model. One `Rotor` class with
  a kind tag stands for them. Forward and backward conversion are assumed to
  be the wiring shifted by the position and the ring setting. A fixed rotor
  and a reflector are assumed not to rotate and never to be at a notch.
  `set(c)` is assumed to put any rotor at `toInt(c)`, and `setRingSetting(c)`
  to set any rotor's ring to `toInt(c)` (`Rotors.Rotor.SetChar`,
  `Rotors.Rotor.SetRingSetting`).
  `Rotors.Rotor.BackwardAt` uses `InverseIndex`, which searches the alphabet
  in order. Java's `invert` searches in hash-map order. The two agree only
  when the wiring is a bijection.
- Reflector and fixed-rotor checks that the shown code does not make, such as
  a reflector's wiring being a derangement, are not modelled.
- The wiring of a permutation is a constant of the class. The Java map is
  written only while the constructor runs, and the constructor's loops that
  write it are modelled.
- The cycle string is never validated, as in the source. Properties that need
  disjoint cycles over the alphabet take that as a precondition.
- Of the permutation unit tests, the `(BACD)` tests and the identity test are
  restated and proved in `permutation_examples.dfy`. The tests over
  `(GRL)(HI)(FN)` are not restated as lemmas.
- The Java active-rotor array is a sequence of catalogue indices. The
  catalogue collection is a sequence of distinct rotor objects.
- Machines.Machine.constructor: requires more than the code checks.
  - `1 < numRotors` and `0 <= pawls < numRotors` are what the comment at
    enigma/Machine.java:13-15 asks of callers. `readConfig` checks only
    `numPawls >= numRotors` (enigma/Main.java:140), so `1 < numRotors` is not
    guaranteed at its call site.
  - Rotors over the machine's alphabet and a catalogue without duplicates come
    from `readConfig` itself. Every rotor is built over its alphabet, and each
    `readRotor()` call makes a new object (enigma/Main.java:127-150).
  - `|alphabet| > 0` is required so that positions can be taken modulo the
    size. The source does not ask for it.
- Machines.Machine.SetPlugboard: requires a plugboard over the machine's
  alphabet, which `setUp` always passes (`Driver.LoadPlugboard` calls it).
- Machines.Machine.Convert: requires a ready machine, with every slot filled
  and a plugboard installed. The Java `convert` (enigma/Machine.java:82-110)
  runs on any machine and throws a NullPointerException on an empty slot or
  a missing plugboard, so that crash is not modelled. A `setUp` that passes
  can leave an empty slot. Take a five-slot machine whose catalogue has no
  rotor named `Foo` and the line `* B Beta III Foo I AB`: slot 3 stays empty,
  and the next `convert` crashes.
- Machines.Machine.ConvertString: requires a ready machine, like `Convert`,
  for the same reason.
- Machines.Machine.InAlphabet: requires the machine's own catalogue invariant,
  which every machine has from its constructor on.
- The pawl count is kept but never consulted, as in the source.
- Machines.Machine.SetRings: the ring loop of `setUp`
  (enigma/Main.java:240-242) is a method of the machine. `LoadSettings` checks
  the ring token and then calls it.
- `setUp` is split into `LoadRotors`, `LoadSettings` and `LoadPlugboard`,
  called in the source's order.
- The second reflector check of `setUp` (enigma/Main.java:227-229) is not
  modelled. `insertRotors` has already made the same check, so it can never
  fail there.
- A failing `setUp` may leave the machine partly changed, as the source does.
  The contracts state the error and the state only on success, apart from
  `SetRotors`, whose crash case is stated exactly.

## Where the code and its documentation differ (the model follows the code)

- `setRotors` does not check that the setting has numRotors-1 characters.
  - A shorter setting sets only the first slots.
  - A longer one sets every slot and then fails with an index out of bounds,
    modelled as `Crash` after the earlier slots were set.
- The cycle string is split on single spaces after each parenthesis is
  replaced by a space. Empty pieces become empty cycles, which add nothing.
  Duplicate or foreign cycle characters are not rejected.
- Stepping never consults the pawl count.
- The comment on `insertRotors` (enigma/Machine.java:36-37) says the rotors
  start at their 0 setting. The code (enigma/Machine.java:38-58) never resets
  a position. `Machines.Machine.InsertRotors` changes only the slots, and each
  rotor keeps the position it had.
