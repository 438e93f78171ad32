# Serial packet parser and deck reshuffle, modelled in Dafny

This project models two small C programs from a collection of interview
problems and proves properties of the models.

**smparser** reads a byte stream and splits it into packets. Each packet is
the byte `0x21` (marker 0), the byte `0x22` (marker 1), a length byte `n`
and `n` payload bytes. Bytes between packets are skipped while the program
hunts for the next header. Each complete packet is
printed as one line: `{%3d}` with the length, then ` %X` for each payload
byte, then a newline. The program is a six-state machine in a
`do { switch (state) … } while (1)` loop, with these states:

- `PKT_BEGIN`;
- `PKT_MARKER0` and `PKT_MARKER1`;
- `PKT_LEN`;
- `PKT_PAYLOAD`;
- `PKT_END`.

The loop ends when end of input is reached, because that call to `exit(0)`
happens inside `read_stdin_byte`.

- `PacketFormat` (`packet_format.dfy`) models `print_packet`.
  - `Line` is the printed line as a function of the packet.
  - `Output` is the text printed for a list of packets.
  - `ParseLine` reads a line back. It is an independent reference definition, and the round-trip and injectivity lemmas are proved against it.
  - The method `FormatPacket` is the loop of `print_packet` over the payload buffer. It is proved to write exactly `Line`.
- `FramingParser` (`framing_parser.dfy`) models the state machine.
  - A pass of the C loop is `Step`: the machine is its state, the input position, `nread` and `pkt.len`.
  - Reading a byte is indexing into the input sequence. Being at the end of the input is the `nread == 0` exit of `read_stdin_byte`.
  - `Run` and `Parse` give the packets printed for a whole input.
  - The method `Pass` is one pass on a real 256-byte payload array.
  - The method `ParseStream` is `main`'s loop. It is proved to print `Output(Parse(input))`.
  - The lemmas show how the parser handles the following inputs:
    - a stream of well-formed frames is parsed back exactly;
    - noise between frames is dropped when no `0x21` in it is followed by a `0x22`;
    - a frame cut short by end of input is not printed;
    - every printed packet is complete and occurs in the input after a marker 0 (soundness).

**reshuffle** counts the rounds of a card deal until a deck of `N` cards is
back in order. One move puts the top card of the hand under the table deck.
Then the next card of the hand goes under the hand. A round repeats moves
until the hand is empty. The table deck is then picked up as the new hand.
Decks are circular doubly linked lists of `malloc`ed items.

- `ShuffleSpec` (`shuffle_spec.dfy`) is the deal on plain sequences: `Move`, `Deal`, `Round` and `Iterate`. It holds the properties proved about them:
  - a round is a permutation;
  - moves look only at positions, not at card values;
  - a fixed position table describes every round;
  - results for small decks.
- `Reshuffle` (`reshuffle.dfy`) is the linked implementation.
  - The items live in one array, the slab. An item address is its slot number, and `NULL` is `-1`.
  - The class `Deck` has the C fields `count` and `cards`. Its ghost field `items` lists the slots from the top down.
  - Each method is proved against `ShuffleSpec`. The methods are:
    - `Init` (`init_deck`);
    - `NipTop`;
    - `TuckBottom`;
    - `OneMove`;
    - `Round`;
    - `IsOrig` (`is_orig_deck`);
    - `CountRounds`, the loop of `main`.
  - `CountRounds` returns the first round after which the deck is `1..N` again.

On a byte other than `0x22`, `PKT_MARKER1` does not go back to `PKT_MARKER0`.
It waits for the next `0x22`, whatever comes before it (smparser.c:164-173).
`FramingParser.SkipToMarker1` and `FramingParser.Marker1MismatchExample`
state this. Two consequences follow:

- A `0x21` in the noise between frames does no harm as long as no `0x22`
  follows it in the noise (`FramingParser.ParseFramesWithNoise`).
- A `0x21 … 0x22` pair in the noise is taken for a header. The byte after it
  is read as a length, and that can swallow the next frame
  (`FramingParser.HeaderNoiseSwallowsFrameExample`).

## Model

| member | source | states |
|---|---|---|
| PacketFormat.Width3 | interview-problems/smparser/smparser.c:93 | `%3d` of a length byte is always exactly three characters wide, padded on the left with blanks and never with zeros |
| PacketFormat.Hex | interview-problems/smparser/smparser.c:95 | `%X` of a byte is upper-case hexadecimal digits with no leading zero: one digit exactly when the byte is below 16, otherwise two |
| PacketFormat.Width3RoundTrip | interview-problems/smparser/smparser.c:93 | the right-justified length field reads back as the length byte |
| PacketFormat.HexRoundTrip | interview-problems/smparser/smparser.c:95 | one `%X` token, read as base-16 digits, is the value of its byte |
| PacketFormat.HexTokensRoundTrip | interview-problems/smparser/smparser.c:94-96 | the space-separated tokens read back as the whole payload, in order, so there are exactly as many tokens as bytes |
| PacketFormat.LineRoundTrip | interview-problems/smparser/smparser.c:88-98 | decoding the printed line of a packet gives back its length and its payload |
| PacketFormat.LineInjective | interview-problems/smparser/smparser.c:88-98 | two different packets never print the same line |
| PacketFormat.EmptyPacketLine | interview-problems/smparser/smparser.c:93-97 | a zero-length packet prints `{  0}` and a newline, with no tokens |
| PacketFormat.HexTokensAppend | interview-problems/smparser/smparser.c:94-96 | printing one more byte adds exactly its token after the earlier ones |
| PacketFormat.LineAlphabet | interview-problems/smparser/smparser.c:40 | every character of a printed line is a space, a decimal digit, a brace, `A`-`F` or a newline |
| PacketFormat.OutputAlphabet | interview-problems/smparser/smparser.c:40 | the whole output stream uses only those characters (the corrected alphabet, see Findings) |
| PacketFormat.StatedAlphabetMissesSeven | interview-problems/smparser/smparser.c:40 | the character list as written lacks `7`, yet the line of a length-7 packet contains it |
| PacketFormat.OutputConcat | interview-problems/smparser/smparser.c:35 | the output for two lists of packets is the output of the first followed by that of the second |
| PacketFormat.FormatPacket | interview-problems/smparser/smparser.c:88-98 | the text the loop writes for a buffer and a length is the line of the packet made of the first `len` buffer bytes |
| FramingParser.Step | interview-problems/smparser/smparser.c:145-212 | one pass of the switch: it stops at end of input and only there. Otherwise it keeps the machine's invariants (payload count at most the length, the bytes held were the last ones read), consumes at most one byte, and either consumes a byte or moves to a state of lower `Rank` (`PKT_PAYLOAD`, then `PKT_END`, then `PKT_BEGIN`), so the machine cannot spin |
| FramingParser.RunNext | interview-problems/smparser/smparser.c:145-212 | the packets of a run are those printed by its first pass followed by those of the rest |
| FramingParser.RunEof | interview-problems/smparser/smparser.c:121-124 | at end of input nothing more is printed |
| FramingParser.StepEmits | interview-problems/smparser/smparser.c:195-205 | a pass prints only in `PKT_END`, and prints one complete packet whose payload is the `len` bytes just read |
| FramingParser.RunEnd | interview-problems/smparser/smparser.c:195-205 | after `PKT_END` prints its packet the machine is reset and hunts for marker 0 from the same position |
| FramingParser.RunBegin | interview-problems/smparser/smparser.c:130-134 | `PKT_BEGIN` consumes nothing and resets to hunting for marker 0 with `nread` and `len` zero |
| FramingParser.SkipToMarker0 | interview-problems/smparser/smparser.c:153-162 | bytes other than `0x21` while hunting for marker 0 are dropped without effect |
| FramingParser.SkipToMarker1 | interview-problems/smparser/smparser.c:164-173 | bytes other than `0x22` in the marker 1 state are dropped and the machine stays in that state |
| FramingParser.RunHeader | interview-problems/smparser/smparser.c:153-183 | marker 0, marker 1 and a length byte bring the hunting machine to the payload state with that length and nothing read |
| FramingParser.RunPayload | interview-problems/smparser/smparser.c:185-205 | with enough input left, the payload state takes exactly the missing bytes, whatever their values (markers included), prints the packet and resumes hunting just after it |
| FramingParser.RunFrame | interview-problems/smparser/smparser.c:25-30 | a well-formed frame at the hunting position is printed as its packet, and hunting resumes right after the frame |
| FramingParser.RunFrames | interview-problems/smparser/smparser.c:145-212 | consecutive well-formed frames are printed as their packets, in order |
| FramingParser.ParseFrames | interview-problems/smparser/smparser.c:136-216 | parsing the concatenated frames of any list of well-formed packets gives back exactly that list |
| FramingParser.Marker1AtMarker0 | interview-problems/smparser/smparser.c:153-173 | on a `0x21`, the marker 1 state and the hunt for marker 0 print the same packets from then on |
| FramingParser.RunFramesToEnd | interview-problems/smparser/smparser.c:145-212 | frames that run to the end of the input are printed as exactly their packets, from either marker state |
| FramingParser.Marker1NoiseThenFrames | interview-problems/smparser/smparser.c:164-173 | in the marker 1 state, noise without `0x22` followed by frames prints exactly the frames' packets |
| FramingParser.RunNoiseThenFrames | interview-problems/smparser/smparser.c:153-173 | noise in which no `0x21` is followed by a `0x22`, then frames, prints exactly the frames' packets, from the hunting state |
| FramingParser.ParseFramesWithNoise | interview-problems/smparser/smparser.c:17 | noise between two runs of frames is discarded, and both runs are printed, whenever no `0x21` in the noise is followed by a `0x22` in the noise |
| FramingParser.RunPayloadTruncated | interview-problems/smparser/smparser.c:121-124 | a payload cut short by end of input prints nothing |
| FramingParser.RunPartialFrame | interview-problems/smparser/smparser.c:42 | any proper prefix of a frame at the end of the input prints nothing |
| FramingParser.ParseTruncated | interview-problems/smparser/smparser.c:42 | frames followed by an incomplete frame print exactly the complete ones |
| FramingParser.ParseEmpty | interview-problems/smparser/smparser.c:19 | an empty input prints nothing |
| FramingParser.StepConsistent | interview-problems/smparser/smparser.c:153-193 | each pass preserves what the state says about the bytes read: a marker 0 was seen before marker 1, and the length byte directly precedes the payload |
| FramingParser.StepSound | interview-problems/smparser/smparser.c:195-205 | a packet printed by one pass is complete and occurs in the input |
| FramingParser.RunSound | interview-problems/smparser/smparser.c:145-212 | every packet printed from a consistent machine is complete and occurs in the input: a `0x22`, its length byte and its payload, after some `0x21` |
| FramingParser.ParseSound | interview-problems/smparser/smparser.c:42 | for every input, each printed packet is well formed and its length byte and payload stand in the input right after a `0x22`, which itself comes after some `0x21`: no incomplete packet and no byte the input does not hold is reported |
| FramingParser.DoubleMarker0Example | interview-problems/smparser/smparser.c:153-173 | `21 21 00 21 22 00` prints exactly one empty packet |
| FramingParser.NoiseBetweenFramesExample | interview-problems/smparser/smparser.c:153-173 | `21 22 01 41`, the noise `21 05`, then `21 22 00` prints both packets |
| FramingParser.HeaderNoiseSwallowsFrameExample | interview-problems/smparser/smparser.c:164-193 | `21 22 00`, `21 00 22`, then the frame `21 22 01 41` prints only the empty packet: the frame's `0x21` is read as a length of 33 |
| FramingParser.Marker1MismatchExample | interview-problems/smparser/smparser.c:164-173 | `21 00 22 01 41` prints the packet of length 1 with payload `41`, since a mismatch after marker 0 does not restart the hunt |
| FramingParser.Pass | interview-problems/smparser/smparser.c:146-211 | one pass on a 256-byte payload array does exactly what `Step` says, keeps the array holding the bytes read so far (so the store at line 192 stays in bounds, as the assertion at line 190 claims) and writes the output of the packets it prints, and nothing at end of input |
| FramingParser.ParseStream | interview-problems/smparser/smparser.c:136-216 | the main loop prints, up to end of input, exactly the lines of the packets `Parse` finds |
| ShuffleSpec.MoveMultiset | interview-problems/reshuffle/reshuffle.c:266-322 | a move takes one card from hand to table and loses or creates none |
| ShuffleSpec.DealMultiset | interview-problems/reshuffle/reshuffle.c:341-355 | moving until the hand is empty puts every card of both decks on the table exactly once |
| ShuffleSpec.RoundPermutes | interview-problems/reshuffle/reshuffle.c:5-8 | a round is a permutation of the deck |
| ShuffleSpec.IteratePermutes | interview-problems/reshuffle/reshuffle.c:84-109 | any number of rounds is a permutation of the deck |
| ShuffleSpec.DealKeepsTable | interview-problems/reshuffle/reshuffle.c:287-288 | moves only append under the table deck: dealing onto a deck is that deck followed by the round of the hand |
| ShuffleSpec.MapIterate | interview-problems/reshuffle/reshuffle.c:365-370 | rounds move cards by position only, never by value: relabelling the cards before any number of rounds gives the same deck as relabelling after them |
| ShuffleSpec.RoundByPositions | interview-problems/reshuffle/reshuffle.c:324-356 | for each deck size a round is one fixed table of positions: card `k` after the round is the card at position `Positions(N)[k]` before it |
| ShuffleSpec.OneOrTwoCards | interview-problems/reshuffle/reshuffle.c:303-313 | decks of one and two cards are back after the first round |
| ShuffleSpec.FourCards | interview-problems/reshuffle/reshuffle.c:84-109 | four cards go `1 3 2 4` after one round and first return after two |
| Reshuffle.InitRing | interview-problems/reshuffle/reshuffle.c:192-204 | the links `init_deck` sets close the items `0..N-1` into one ring holding cards `1..N` from the top |
| Reshuffle.NipRing | interview-problems/reshuffle/reshuffle.c:226-230 | relinking the neighbours of the top item leaves a ring of the remaining items |
| Reshuffle.TuckRing | interview-problems/reshuffle/reshuffle.c:258-262 | linking an outside item between the bottom and the top gives a ring with that item at the bottom |
| Reshuffle.CardsRound | interview-problems/reshuffle/reshuffle.c:324-356 | the cards read from the items after a round are the round of the cards before it |
| Reshuffle.Deck.Init | interview-problems/reshuffle/reshuffle.c:174-205 | the new deck has `count` cards numbered `1..count` from the top, in a closed ring of slots `0..count-1` (whatever those slots held before), and no other slot changes |
| Reshuffle.Deck.NipTop | interview-problems/reshuffle/reshuffle.c:207-234 | the top item is unlinked and returned with null links, the rest keeps its order as a valid ring, the count drops by one, and no card value or other item changes |
| Reshuffle.Deck.TuckBottom | interview-problems/reshuffle/reshuffle.c:236-264 | the item becomes the new bottom, in both the empty-deck and the non-empty case, and the count grows by one |
| Reshuffle.TopToOther | interview-problems/reshuffle/reshuffle.c:287-288 | step (1): the hand's top item moves under the table deck and the two decks stay disjoint |
| Reshuffle.Deck.TopToBottom | interview-problems/reshuffle/reshuffle.c:303-313 | step (2): the new top item goes under the same deck, a rotation by one |
| Reshuffle.OneMove | interview-problems/reshuffle/reshuffle.c:266-322 | the linked decks after a move are `Move` of the decks before, counts move by one, and no item is lost or duplicated |
| Reshuffle.Round | interview-problems/reshuffle/reshuffle.c:324-356 | from a full hand and an empty table, the hand ends empty and the table holds the round of the hand's items |
| Reshuffle.Deck.IsOrig | interview-problems/reshuffle/reshuffle.c:358-402 | true exactly when the deck has `N` cards reading `1..N` from the top |
| Reshuffle.CountRounds | interview-problems/reshuffle/reshuffle.c:58-112 | the count returned is the first round, from one on, after which the deck `1..N` is back in order; with no count, no round up to the bound returns it |

## Left out

- smparser's output is returned as a string rather than written to standard output.
- smparser's exit status is not modelled.
- A read error in `read_stdin_byte` (smparser.c:117-120) is not modelled, because the input is a sequence and has no failing reads. In C it prints a message and exits with status 1.
- `print_syncerror`, the `printed_syncerror` flag and all `debug` output are left out. `debug` is the constant 0, so none of them affect stdout.
- In C, `state` in `main` is never initialised; the model starts in `PKT_BEGIN`, the state a correct reading of the code intends.
- The `default:` branch of the switch is left out, because all six states are handled.
- The `marker0` and `marker1` fields of `packet_t` are never written, so they are left out.
- reshuffle's `parse_args`, `usage` and `atoi` are command-line handling, so they are left out. `decksize > 0` is a precondition of `CountRounds` instead of the `usage()` exit.
- `create_item`'s `malloc` is modelled by slots in a preallocated array, and its allocation failure path is left out.
- `init_deck(&table, 0)` creates one dummy item, which never counts as a card. The model gives the empty table `cards == -1` and no item.
- `print_deck`, `printf` of the result, the stderr message of `is_orig_deck`, and the `debug` output are left out as output only.
- The C `assert`s in `round` and `nip_top` are preconditions of the Dafny methods.
- Reshuffle.Deck.Init: the C loop bound `i < count + 1` wraps around for `count == UINT_MAX`. `unsigned int` wrap-around is not modelled; integers are unbounded.
- Reshuffle.CountRounds: the C loop has no bound, so a `fuel` limit is added. The contract says nothing about decks that take more than `fuel` rounds, beyond that none of those rounds returned the deck.

## Findings

| source | as written | input that shows it | evidently intended | confidence | as-written member | corrected member |
|---|---|---|---|---|---|---|
| interview-problems/smparser/smparser.c:40 | the allowed output characters are listed as " 012345689{}ABCDEF" and newline, without `7` | a packet of length 7 prints `{  7}`, and a payload byte `0x07` prints `7` | all ten decimal digits are allowed, as `%3d` and `%X` need | not executed | PacketFormat.StatedAlphabetMissesSeven | PacketFormat.OutputAlphabet |
