# Enigma engine

A model of the engine of an Enigma-style rotor cipher. It has four parts:

- **Alphabet**: a fixed string whose k-th character has index k.
- **Permutation**: a permutation of the alphabet's indices. It is given in cycle notation such as `"(AB) (CDE)"`. `permute` maps an index to its successor in its cycle and `invert` to its predecessor, after both bring the index into range with `wrap`.
- **Rotor**: a permutation turned by a setting. A moving rotor has a notch set and can advance. A fixed rotor and a reflector never move.
- **Machine**: a catalogue of rotors, a row of slots filled from it (slot 0 holds the reflector), and an optional plugboard. Converting a character first steps the rotors by the double-stepping rule. It then sends the contact through the plugboard, the rotors from right to left, the reflector, the rotors from left to right, and back through the plugboard.

Modules, one per file:

- `Results` (`results.dfy`): the error causes. Errors are returned as values; the source throws its one exception class instead.
- `Seqs` (`seqs.dfy`): `indexOf` on sequences.
- `Alphabets` (`alphabets.dfy`)
- `Permutations` (`permutations.dfy`)
- `Rotors` (`rotors.dfy`)
- `Machines` (`machines.dfy`)

Alphabets, permutations and rotors are values (datatypes).

The machine is a class:
- The rotors live in a `catalogue` array.
- The slots are a sequence of catalogue indices.
- `setRotors` and `advanceRotors` update rotors in place in the catalogue. A rotor therefore keeps its setting between uses, as the shared rotor objects of the source do.

Every state-changing method is proved against a specification function of the old state:
- `Select` for `insertRotors`;
- `WithSettings` for `setRotors`;
- `Stepped` for `advanceRotors`;
- `Path` for `convert(int)`;
- `Run` for `convert(String)`.

Lemmas then state what the source promises about those functions:
- the settings round trip;
- the stepping rule;
- the reciprocity of the cipher;
- no letter is enciphered to itself;
- the readouts of the stepping test.

The classes `Rotor`, `FixedRotor` and `Reflector` are not part of this model. Their behaviour is the closed datatype `Kind` (`Moving`, `Fixed`, `Reflector`), with these stated assumptions:
- only a moving rotor rotates, has notches and advances;
- only a reflector reflects;
- `set(ch)` sets the setting to `toInt(ch)`;
- `convertForward(p)` is `wrap(permute(p + setting) - setting)`;
- `convertBackward` is the same around `invert`;
- a new rotor starts at setting 0.

## Model

| member | source | states |
|---|---|---|
| `Alphabets.Alphabet.Size` | Alphabet.java:21-24 | size() is the length of the alphabet string |
| `Alphabets.SizeCountsCharacters` | Alphabet.java:10-11 | on an alphabet without repeated characters, as the constructor demands, size() is the number of different characters it contains |
| `Alphabets.Alphabet.Contains` | Alphabet.java:26-29 | holds exactly when the character occurs in the alphabet string |
| `Alphabets.Alphabet.ToChar` | Alphabet.java:31-35 | for an index in range, returns the character at that index, which the alphabet contains |
| `Alphabets.Alphabet.ToInt` | Alphabet.java:37-45 | succeeds exactly for characters of the alphabet, with the FIRST index holding the character; otherwise fails with that character as the cause |
| `Alphabets.Upper` | Alphabet.java:16-19 | the default alphabet has 26 characters, 'A' to 'Z' in order |
| `Alphabets.UpperIsLetters` | Alphabet.java:16-19 | the default alphabet has no repeats and contains a character exactly when it lies between 'A' and 'Z' |
| `Alphabets.ToCharOfToInt` | Alphabet.java:37-38 | toChar(toInt(ch)) == ch for every character of the alphabet |
| `Alphabets.ToIntOfToChar` | Alphabet.java:10-11 | toInt(toChar(i)) == i for every index, when no character is repeated, as the constructor demands |
| `Alphabets.RepeatedCharacterBreaksToInt` | Alphabet.java:10-11 | without that demand the inverse fails: in "ABA", toInt(toChar(2)) is 0 |
| `Alphabets.Alphabet.FirstAbsent` | Alphabet.java:39-43 | the position of the first character that toInt rejects: all before it are in the alphabet, the one there is not |
| `Permutations.TruncRem` | Permutation.java:69 | Java's `%` (the sign follows the dividend), with its ranges for non-negative and negative operands |
| `Permutations.TruncRemCorrected` | Permutation.java:68-74 | adding the size to a negative Java remainder gives the non-negative modulo |
| `Permutations.Permutation.Size` | Permutation.java:76-79 | a permutation's size() is the size of the alphabet it permutes |
| `Permutations.Permutation.Wrap` | Permutation.java:68-74 | wrap(p) lies in [0, size) |
| `Permutations.WrapIsModulo` | Permutation.java:68-74 | wrap(p) is p modulo the size, i.e. in range and congruent to p |
| `Permutations.Permutation.Permute` | Permutation.java:83-97 | permute(p) lies in [0, size) when every cycle entry is an index |
| `Permutations.Permutation.Invert` | Permutation.java:101-115 | invert(c) lies in [0, size) when every cycle entry is an index |
| `Permutations.PermuteScansCycles` | Permutation.java:83-97 | permute(p) is wrap(p) when no cycle holds it, and otherwise the successor (index + 1 modulo the cycle length) in the FIRST cycle that holds it |
| `Permutations.InvertScansCycles` | Permutation.java:101-115 | invert(c) is wrap(c) when no cycle holds it, and otherwise the predecessor (index - 1 + length, modulo length) in the first cycle that holds it |
| `Permutations.SuccessorFirstHolding` | Permutation.java:86-96 | the successor scan stops at the first cycle holding the value and returns the value itself when none does |
| `Permutations.PredecessorFirstHolding` | Permutation.java:104-114 | the predecessor scan stops at the first cycle holding the value and returns the value itself when none does |
| `Permutations.ScansStayInRange` | Permutation.java:86-96 | with every cycle entry below n, both scans map [0, n) into [0, n) |
| `Permutations.StepsWithinCycle` | Permutation.java:87-93 | in disjoint cycles, the scans step along the cycle that holds the value |
| `Permutations.NextThenPrevious` | Permutation.java:92-110 | the successor and predecessor index arithmetic undo each other |
| `Permutations.ScanRoundTrip` | Permutation.java:83-115 | in disjoint cycles the two scans are inverse to each other on every value |
| `Permutations.InCycleRoundTrip` | Permutation.java:83-115 | the scans undo each other on every cycle entry |
| `Permutations.InvertUndoesPermute` | Permutation.java:83-115 | invert(permute(p)) == wrap(p) for disjoint cycles of indices |
| `Permutations.PermuteUndoesInvert` | Permutation.java:83-115 | permute(invert(p)) == wrap(p) for disjoint cycles of indices |
| `Permutations.AfterIsBeforeInShortCycle` | Permutation.java:92-110 | in a cycle of at most two entries, successor and predecessor coincide |
| `Permutations.InvolutionUndoesItself` | Permutation.java:83-115 | with cycles of at most two entries, invert is permute and permute(permute(p)) == wrap(p) |
| `Permutations.Permutation.PermuteChar` | Permutation.java:117-123 | succeeds exactly for alphabet characters, giving an alphabet character; an unknown character fails as toInt fails |
| `Permutations.Permutation.InvertChar` | Permutation.java:125-130 | succeeds exactly for alphabet characters, giving an alphabet character; an unknown character fails as toInt fails |
| `Permutations.CharRoundTrip` | Permutation.java:117-130 | the character overloads undo each other for disjoint cycles over an alphabet without repeats |
| `Permutations.RepeatedEntryBreaksRoundTrip` | Permutation.java:57-65 | addCycle does not reject a repeated entry, and then the round trip fails: with the cycle (ABA), permute(invert(0)) is 1 |
| `Permutations.Permutation.DerangementAsWritten` | Permutation.java:139-142 | derangement() as written holds exactly when the alphabet is empty |
| `Permutations.DerangementAsWrittenRejectsSwap` | Permutation.java:137-142 | the as-written derangement() is false for the swap (AB) over "AB", which moves every index, while the corrected one is true |
| `Permutations.FixedPointIffUnmoved` | Permutation.java:83-97 | for disjoint cycles, an index is moved by permute exactly when it lies in a cycle of two or more entries |
| `Permutations.MovedCard` | Permutation.java:137-142 | for disjoint cycles, the number of moved indices is the sum of the lengths of the cycles that move something |
| `Permutations.DerangementMeansNoFixedPoint` | Permutation.java:137-142 | the corrected derangement() holds exactly when no index maps to itself, the doc comment's promise |
| `Permutations.Groups` | Permutation.java:39-53 | every group the scan cuts out starts with '(', ends with ')' and has no ')' inside |
| `Permutations.OneGroup` | Permutation.java:44-47 | the text from a '(' to the next ')' is one group |
| `Permutations.GroupsShape` | Permutation.java:42-51 | the scan from any position yields only such groups |
| `Permutations.GroupsSkipOutside` | Permutation.java:48-50 | characters outside parentheses in front of the groups are skipped |
| `Permutations.GroupsCons` | Permutation.java:44-47 | a parenthesised group in front becomes the first group, followed by the rest |
| `Permutations.GroupsDropTrailing` | Permutation.java:42-51 | trailing characters without parentheses add no group |
| `Permutations.TrimKeepsGroups` | Permutation.java:40 | trimming the cycle string does not change its groups |
| `Permutations.TrimKeepsBalanced` | Permutation.java:40 | trimming keeps every '(' followed by a ')' |
| `Permutations.GroupAt` | Permutation.java:44-47 | at a '(' of a balanced string, the scan takes the group up to the next ')' and resumes after it |
| `Permutations.ParseCycles` | Permutation.java:39-53 | the loop with its manually advanced index returns exactly the groups of the string |
| `Permutations.AddCycle` | Permutation.java:57-65 | appends one cycle, the toInt of each character in order, leaving the earlier cycles unchanged; fails at the first character outside the alphabet |
| `Permutations.NewPermutation` | Permutation.java:19-31 | succeeds exactly when every character inside every group is in the alphabet; then the permutation has one cycle per group, holding the characters' indices in order, all in range; otherwise it fails with the first character, in reading order, that toInt rejects: the first absent character of the first group that holds one |
| `Rotors.Rotor.Advance` | MovingRotor.java:38-41 | a moving rotor's setting becomes wrap(setting + 1), which is (setting + 1) modulo the size; any other rotor is unchanged; name, variant and wiring are kept |
| `Rotors.Rotor.AdvanceTimes` | MovingRotor.java:38-41 | repeated advances keep name, variant and wiring |
| `Rotors.AdvanceTimesSetting` | MovingRotor.java:38-41 | k advances move a moving rotor's setting to (setting + k) modulo the size |
| `Rotors.FullTurn` | MovingRotor.java:38-41 | size advances bring a moving rotor back to where it was |
| `Rotors.Rotor.Rotates` | MovingRotor.java:27-30 | rotates() holds exactly for moving rotors, and a rotor that does not rotate is left unchanged by advance() |
| `Rotors.Rotor.AtNotch` | MovingRotor.java:32-35 | atNotch() holds exactly when the rotor is a moving one whose setting is in its notch set, so only a rotating rotor is ever at a notch |
| `Rotors.Rotor.Reflecting` | Machine.java:48 | reflecting() holds exactly for reflectors, and a reflector neither rotates nor stands at a notch |
| `Rotors.NoNotchesNeverAtNotch` | MovingRotor.java:16-35 | a moving rotor with no notches is never at a notch, however far it turns |
| `Rotors.NotchSetStep` | MovingRotor.java:20-24 | reading one more notch character adds exactly its index to the notch set |
| `Rotors.NewMovingRotor` | MovingRotor.java:16-25 | succeeds exactly when every notch character is in the alphabet, giving a moving rotor at setting 0 whose notches are the characters' indices; otherwise fails at the first character outside the alphabet |
| `Rotors.Rotor.SetChar` | Machine.java:76-79 | rotor.set(ch) succeeds exactly for alphabet characters, setting the rotor to the FIRST index holding `ch` (toInt's index) and keeping everything else |
| `Rotors.Rotor.ConvertForward` | Machine.java:121-126 | the forward conversion lands on a contact in [0, size) |
| `Rotors.Rotor.ConvertBackward` | Machine.java:128-131 | the backward conversion lands on a contact in [0, size) |
| `Rotors.BackwardUndoesForward` | Machine.java:121-131 | convertBackward(convertForward(x)) == wrap(x) for a rotor with disjoint cycles |
| `Rotors.ForwardUndoesBackward` | Machine.java:121-131 | convertForward(convertBackward(x)) == wrap(x) for a rotor with disjoint cycles |
| `Rotors.ReflectionInvolution` | Machine.java:126 | a reflector whose cycles have at most two entries undoes itself at any setting |
| `Rotors.NoFixedContact` | Machine.java:126 | a reflector whose wiring is a derangement (corrected `derangement()`) sends no contact back to itself, at any setting |
| `Machines.FirstNamedFrom` | Machine.java:60-67 | the first catalogue index at or after k with the given name, or an error naming it when none has it |
| `Machines.FirstNamed` | Machine.java:60-67 | getRotor finds the first catalogue rotor with the name, or fails with UnknownRotor when none has it |
| `Machines.Select` | Machine.java:40-53 | insertRotors never fills more slots than names given |
| `Machines.SelectNext` | Machine.java:42-52 | one round of the loop: if the earlier names passed, the next name is admitted and appended, or stops the selection with its error |
| `Machines.SelectLength` | Machine.java:40-53 | a successful insertRotors fills one slot per name |
| `Machines.FailureSticks` | Machine.java:45-50 | once a name has been refused, later names change nothing |
| `Machines.SelectableSnoc` | Machine.java:42-52 | the names are acceptable exactly when the earlier ones are and the last is known, not already chosen, and a reflector when it is the first |
| `Machines.AdmitFresh` | Machine.java:44-51 | a name is admitted exactly when it is known, names no rotor chosen already, and names a reflector in slot 0 |
| `Machines.InsertSucceeds` | Machine.java:40-53 | insertRotors succeeds exactly when every name is known, no rotor is chosen twice and slot 0 gets a reflector; the slots are then the named rotors in the given order |
| `Machines.InsertFailsAtFirstRefusal` | Machine.java:40-53 | a failed insertRotors stops at the first refused name, with that name's error, leaving the slots filled before it |
| `Machines.WithSettings` | Machine.java:72-80 | setting the first m rotors after the reflector keeps the number of rotors |
| `Machines.WithSettingsStep` | Machine.java:76-79 | each round of the setRotors loop sets exactly the next slot from the next character |
| `Machines.Readout` | Machine.java:87-95 | getSettings has one character per slot after the reflector, and is empty without rotors |
| `Machines.SettingsFit` | Machine.java:72-80 | setRotors keeps every rotor and its wiring, changes only settings, and leaves the reflector alone |
| `Machines.SettingsRoundTrip` | Machine.java:72-95 | after a successful setRotors(s), getSettings() == s; after one that stopped at position m, the readout starts with the m characters that were set |
| `Machines.Stepped` | Machine.java:143-161 | stepping keeps the number of rotors and every rotor's name, variant and wiring |
| `Machines.SteppingRule` | Machine.java:143-161 | slot 0 and non-rotating rotors never move; a rotating rotor in slot i >= 1 advances by one exactly when it is rightmost, its right neighbour is at a notch, or it is at a notch and its left neighbour rotates; all marks come from the state before the step |
| `Machines.SteppedFit` | Machine.java:155-160 | stepping keeps every rotor's setting in range |
| `Machines.NavalSlots` | MachineTest.java:33-35 | the test's rotors B, Beta, III, IV and I fit the upper-case alphabet |
| `Machines.NavalReadout` | MachineTest.java:41-55 | the readout of the test rotors is their four settings as letters |
| `Machines.NavalStep` | MachineTest.java:43-55 | one step of the test rotors: I always moves, IV moves when I is at Q or IV is at J, III moves when IV is at J |
| `Machines.QuietSteps` | MachineTest.java:38-41 | while IV is off its notch and I has not passed Q, each press moves I alone |
| `Machines.SteppingReadouts` | MachineTest.java:31-56 | from AXLE: AXLF after one press, AXLQ after twelve, AXMR after thirteen; from AXIQ: AXJR, then AYKS (the double step) |
| `Machines.Forward` | Machine.java:121-124 | the forward pass through slots j and beyond lands in range |
| `Machines.Backward` | Machine.java:128-131 | the backward pass lands in range |
| `Machines.PlugIn` | Machine.java:117-119 | the plugboard's permute, or nothing when there is no plugboard |
| `Machines.PlugOut` | Machine.java:133-135 | the plugboard's invert, or nothing when there is no plugboard |
| `Machines.Path` | Machine.java:105-138 | the whole signal path gives a contact in [0, size) |
| `Machines.Route` | Machine.java:117-137 | the signal-path loops compute the path: plugboard, slots n-1 down to 1 forward, the reflector, slots 1 up to n-1 backward, plugboard inverse |
| `Machines.BackwardUndoesForwardPath` | Machine.java:121-131 | the backward pass undoes the forward pass through the same rotors |
| `Machines.ForwardUndoesBackwardPath` | Machine.java:121-131 | the forward pass undoes the backward pass |
| `Machines.Reciprocal` | Machine.java:105-138 | with a reflector of 2-cycles and a plugboard of disjoint cycles, converting twice at the same rotor positions gives the contact back |
| `Machines.NeverItself` | Machine.java:105-138 | with a reflector whose wiring is a derangement, no contact is converted to itself |
| `Machines.Letters` | Machine.java:167-171 | the characters convert(String) keeps: none is whitespace, and there are no more than in the message |
| `Machines.LettersPrefix` | Machine.java:167-171 | the kept characters of a prefix are a prefix of the kept characters |
| `Machines.LettersOfPlain` | Machine.java:167-171 | a message without whitespace is kept whole |
| `Machines.LettersStep` | Machine.java:167-171 | one more character is kept unless it is whitespace |
| `Machines.Turned` | Machine.java:165-177 | k key presses keep every rotor, its wiring and the number of rotors |
| `Machines.TurnedStep` | Machine.java:173 | each key press steps the rotors once more |
| `Machines.Key` | Machine.java:172-174 | one key press converts an alphabet character to an alphabet character |
| `Machines.Cipher` | Machine.java:165-177 | the output has one character per kept input character |
| `Machines.Run` | Machine.java:165-177 | convert(String) succeeds exactly when every kept character is in the alphabet, with one output character per kept character |
| `Machines.KeyTwice` | Machine.java:172-174 | at the same rotor positions, a key press undoes itself |
| `Machines.CipherTwiceAt` | Machine.java:165-177 | enciphering the ciphertext from the same starting positions gives back each letter |
| `Machines.CipherTwice` | Machine.java:165-177 | enciphering the ciphertext from the same starting positions gives back the message |
| `Machines.RunPlain` | Machine.java:165-177 | on a message of alphabet letters only, convert(String) is the cipher and steps once per letter |
| `Machines.RunReciprocal` | Machine.java:165-177 | converting a successful output again from the same start gives the message without its whitespace, and ends at the same positions |
| `Machines.CipherNeverItself` | Machine.java:165-177 | with a reflector whose wiring is a derangement, no letter is enciphered as itself |
| `Machines.CipherLast` | Machine.java:172-174 | the last output character is the key press at the rotor positions after as many steps as letters |
| `Machines.CipherFront` | Machine.java:165-177 | appending a letter leaves the earlier output alone |
| `Machines.CipherSnoc` | Machine.java:172-174 | appending a letter appends its key press to the output |
| `Machines.LetterStep` | Machine.java:172-174 | one round of the loop: the rotors step once more and the output grows by the key press at the new positions |
| `Machines.RunCompletes` | Machine.java:165-177 | when every kept character is in the alphabet, the result is the cipher and the rotors have stepped once per kept character |
| `Machines.RunStopsAt` | Machine.java:172 | the first non-whitespace character outside the alphabet stops the message with its error, after the steps of the letters before it |
| `Machines.Machine.constructor` | Machine.java:14-25 | a machine with the given alphabet, slot and pawl counts and catalogue, no rotors in its slots and no plugboard |
| `Machines.Machine.GetRotor` | Machine.java:60-67 | the loop over the catalogue returns the first rotor with the name, or fails |
| `Machines.Machine.InsertRotors` | Machine.java:40-53 | the slots are cleared and refilled, ending exactly as Select describes, with the same outcome; the plugboard is untouched |
| `Machines.Machine.Fill` | Machine.java:51 | appends a rotor not yet in the slots |
| `Machines.Machine.SetRotors` | Machine.java:72-80 | a setting of the wrong length fails and changes nothing; otherwise the rotors of slots 1 onwards take the characters' indices, up to the first character outside the alphabet, which is the failure's cause; no rotor outside the slots changes |
| `Machines.Machine.SetSlot` | Machine.java:77-78 | sets the rotor of one slot to the index of a character, or leaves it when the character is not in the alphabet |
| `Machines.Machine.Place` | Machine.java:78 | replaces the rotor of one slot and nothing else |
| `Machines.Machine.GetSettings` | Machine.java:87-95 | the loop returns the readout of the slots after the reflector |
| `Machines.Machine.SetPlugboard` | Machine.java:98-100 | the plugboard is replaced and the slots are kept |
| `Machines.Machine.MarkAdvancing` | Machine.java:144-153 | the marks of the first loop, each computed from the positions before any rotor moves |
| `Machines.Machine.AdvanceRotors` | Machine.java:143-161 | the slots end in the stepped positions, and no other catalogue rotor changes |
| `Machines.Machine.MoveSlot` | Machine.java:155-160 | a marked rotor that rotates advances; any other stays |
| `Machines.Machine.Convert` | Machine.java:105-138 | the rotors step first, then the result is the signal path at the new positions |
| `Machines.Machine.Press` | Machine.java:168-174 | one character of the message: fails for a character outside the alphabet without a step; otherwise steps the rotors and returns the key press at the new positions |
| `Machines.Machine.ConvertMessage` | Machine.java:165-177 | the output and the final rotor positions are exactly those of Run from the starting positions, including the error case that stops part way |

## Left out

- `Main.java` is not part of this model. It reads the configuration and input files, prints output in groups of five, and exits the process; all of that is I/O.
- `numRotors()` and `numPawls()` are the constant fields `numRotors` and `pawls`. The pawl count is stored but never consulted when stepping, so no pawl limit is enforced.
- The `Rotor`, `FixedRotor`, `Reflector` and `EnigmaException` sources are not part of this model. Their behaviour is the set of assumptions listed above.
- The wirings and notches of the test rotors, and so the test's ciphertexts, come from a test helper that is not part of this model. The stepping readouts use identity wirings and the usual notches (I at Q, III at V, IV at J), because stepping never reads a wiring.
- The readout after the run of 597 further key presses in the stepping test is not proved. The single steps around it are.
- Only duplicate-free alphabets are used where the source's doc comment demands one: every lemma that decodes a character it encoded (`ToIntOfToChar`, `CharRoundTrip`, `KeyTwice`, `CipherTwiceAt`, `CipherTwice`, `RunReciprocal`, `CipherNeverItself`). The constructor itself does not check it.
- `Permutations.ParseCycles`, `Permutations.NewPermutation`: require balanced parentheses (every '(' has a later ')'). On other input the source fails with an index error or loops forever.
- Whitespace inside a group is not skipped. The constructor's comment says whitespace is ignored, but the code passes it to toInt, which rejects it; the model follows the code.
- `Permutations.Permutation.Wrap` and everything built on it require a non-empty alphabet. With size 0 the source divides by zero.
- `Machines.Machine.AdvanceRotors`, `Machines.Machine.Convert`, `Machines.Machine.Press`, `Machines.Machine.ConvertMessage`: require at least one filled slot, so the machine with empty slots is left out altogether. In the source such a machine fails with an index error only at the first alphabet letter it converts. A message with no letters gives the empty string, and a character outside the alphabet fails in toInt before any stepping.
- `Machines.Machine.SetRotors`: requires the slots to hold at least `numRotors` rotors when the setting has the right length. The source does not check that insertRotors filled every slot and fails on a list index otherwise.
- `Machines.Machine.constructor`: takes the documented ranges of the counts and a catalogue of rotors over the machine's alphabet as preconditions. The source assumes, but does not check, a common alphabet.
- `Machines.Machine.SetPlugboard`: requires the plugboard to permute the machine's alphabet. The source accepts any permutation and would later index with its size.
- Java reference identity in the duplicate check of insertRotors is catalogue-index identity here. The source's rotor objects are the catalogue entries, so the two agree.
- `Machines.Machine.InsertRotors`: does not reset the settings of the rotors it selects. The source's doc comment says rotors start at setting 0, but its code keeps whatever setting a shared rotor object last had; the model follows the code.
- Several source loops are split into helper methods, with the same effect:
  - advanceRotors into `MarkAdvancing` and `MoveSlot`;
  - convert(int) into `AdvanceRotors` and `Route`;
  - the body of convert(String)'s loop into `Press`;
  - the body of setRotors' loop into `SetSlot` and `Place`.
- Integers are unbounded, whereas Java's `int` is 32 bits wide. The model has no overflow, so `convert(int)` on a contact near `Integer.MAX_VALUE`, where `p + setting` wraps around in Java, is not modelled. Every contact the core itself passes is an alphabet index, far from that bound.
- `char` is a Dafny `char` (a Unicode scalar value), not a Java UTF-16 code unit, so lone surrogate halves cannot occur in a message. `Character.isWhitespace` is written out as its set of characters.
- `Machines.Machine.ConvertMessage`: builds its result by appending to a sequence rather than by Java string concatenation; the result is the same.

## Findings

| source | as written | input that shows it | evidently intended | confidence | as-written member | corrected member |
|---|---|---|---|---|---|---|
| Permutation.java:139-142 | `derangement()` sets a counter to 0, never updates it, and returns whether it equals the alphabet size, so it is false for every non-empty alphabet | the swap (AB) over the alphabet "AB" moves both indices, yet `derangement()` is false | true exactly when no index maps to itself: the lengths of the cycles that move something add up to the size | high (not executed) | `Permutations.Permutation.DerangementAsWritten`, shown by `Permutations.DerangementAsWrittenRejectsSwap` | `Permutations.Permutation.Derangement`, proved by `Permutations.DerangementMeansNoFixedPoint` and used by `Machines.NeverItself` |
