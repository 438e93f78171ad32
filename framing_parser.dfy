/**
 * The framing state machine of the serial message parser (`main` in
 * smparser.c). A frame on the wire is `0x21 0x22 len b1 .. blen`; bytes
 * between frames are discarded while the machine hunts for the next `0x21`
 * and, after it, the next `0x22`, and the end of the input stops
 * the parser wherever it is, dropping a partly received packet.
 *
 * The byte source is the sequence `input`: reading the next byte is
 * `input[pos]`, and `pos == |input|` is end of input, where the program
 * exits. `Run` is the transition table of the `switch` together with the
 * packets printed from a given machine on; `Pass` is one pass of the
 * `do { switch (state) ... } while (1)` loop and `ParseStream` the loop
 * itself, over the fixed-size payload buffer of the packet record.
 */
module FramingParser {
  import opened PacketFormat

  const Marker0: Byte := 0x21
  const Marker1: Byte := 0x22
  /** Size of `pkt.payload`: `258 - 3 + 1`. */
  const MaxPayload: nat := 258 - 3 + 1

  datatype PktState = PktBegin | PktMarker0 | PktMarker1 | PktLen | PktPayload | PktEnd

  /**
   * The parser's variables: the state, how many input bytes have been read,
   * `nread` and `pkt.len`. The bytes stored in `pkt.payload[..nread]` are
   * always the last `nread` bytes read, `input[pos - nread..pos]`; `Pass`
   * keeps its buffer equal to them.
   */
  datatype Machine = Machine(state: PktState, pos: nat, nread: nat, len: Byte)

  /** The machine before the first pass. It begins in `PKT_BEGIN`, whose reset sets the other variables. */
  const Start := Machine(PktBegin, 0, 0, 0)

  /** The machine hunting for a frame at `pos`, as `RESET_STATE_MACHINE` leaves it. */
  function Hunting(pos: nat): Machine
  {
    Machine(PktMarker0, pos, 0, 0)
  }

  /** What holds of the variables at the top of every pass. */
  predicate Valid(m: Machine, input: seq<Byte>)
  {
    && m.pos <= |input|
    && m.nread <= m.len
    && m.nread <= m.pos
    && (m.state.PktMarker0? || m.state.PktMarker1? || m.state.PktLen? ==> m.nread == 0)
    && (m.state.PktEnd? ==> m.nread == m.len)
  }

  /** The states left without reading a byte rank above the states they lead to. */
  function Rank(s: PktState): nat
  {
    match s
    case PktPayload => 3
    case PktEnd => 2
    case PktBegin => 1
    case _ => 0
  }

  /** The result of one pass of the loop: end of input, or the machine after it and the packets it printed. */
  datatype StepResult = Eof | Next(machine: Machine, emitted: seq<Packet>)

  /**
   * One pass of the `switch`: the states that read a byte stop at end of
   * input, `PKT_END` prints the packet, and `PKT_BEGIN` resets the machine.
   */
  function Step(m: Machine, input: seq<Byte>): (r: StepResult)
    requires Valid(m, input)
    ensures r.Eof? ==> m.pos == |input|
    ensures m.pos < |input| ==> r.Next?
    ensures r.Next? ==> Valid(r.machine, input)
    ensures r.Next? ==> m.pos <= r.machine.pos <= m.pos + 1
    ensures r.Next? ==> r.machine.pos > m.pos || Rank(r.machine.state) < Rank(m.state)
  {
    match m.state
    case PktBegin =>
      Next(Hunting(m.pos), [])
    case PktMarker0 =>
      if m.pos == |input| then Eof
      else if input[m.pos] == Marker0 then Next(m.(state := PktMarker1, pos := m.pos + 1), [])
      else Next(m.(pos := m.pos + 1), [])
    case PktMarker1 =>
      if m.pos == |input| then Eof
      else if input[m.pos] == Marker1 then Next(m.(state := PktLen, pos := m.pos + 1), [])
      else Next(m.(pos := m.pos + 1), [])
    case PktLen =>
      if m.pos == |input| then Eof
      else Next(m.(state := PktPayload, pos := m.pos + 1, len := input[m.pos]), [])
    case PktPayload =>
      if m.nread == m.len then Next(m.(state := PktEnd), [])
      else if m.pos == |input| then Eof
      else Next(m.(pos := m.pos + 1, nread := m.nread + 1), [])
    case PktEnd =>
      Next(m.(state := PktBegin), [Packet(m.len, input[m.pos - m.len..m.pos])])
  }

  /**
   * The packets printed from machine `m` on until end of input: the passes
   * of `Step` from `m` on, with the table written out so that each case
   * unfolds on its own.
   */
  function Run(m: Machine, input: seq<Byte>): seq<Packet>
    requires Valid(m, input)
    decreases |input| - m.pos, Rank(m.state)
  {
    match m.state
    case PktBegin =>
      Run(Hunting(m.pos), input)
    case PktMarker0 =>
      if m.pos == |input| then []
      else if input[m.pos] == Marker0 then Run(m.(state := PktMarker1, pos := m.pos + 1), input)
      else Run(m.(pos := m.pos + 1), input)
    case PktMarker1 =>
      if m.pos == |input| then []
      else if input[m.pos] == Marker1 then Run(m.(state := PktLen, pos := m.pos + 1), input)
      else Run(m.(pos := m.pos + 1), input)
    case PktLen =>
      if m.pos == |input| then []
      else Run(m.(state := PktPayload, pos := m.pos + 1, len := input[m.pos]), input)
    case PktPayload =>
      if m.nread == m.len then Run(m.(state := PktEnd), input)
      else if m.pos == |input| then []
      else Run(m.(pos := m.pos + 1, nread := m.nread + 1), input)
    case PktEnd =>
      [Packet(m.len, input[m.pos - m.len..m.pos])] + Run(m.(state := PktBegin), input)
  }

  /** The packets the program prints for the whole input. */
  function Parse(input: seq<Byte>): seq<Packet>
  {
    Run(Start, input)
  }

  /** A pass that prints `out` and leaves `m'` puts `out` ahead of everything the later passes print. */
  lemma RunNext(m: Machine, m': Machine, out: seq<Packet>, input: seq<Byte>)
    requires Valid(m, input) && Step(m, input) == Next(m', out)
    ensures Run(m, input) == out + Run(m', input)
  {
  }

  /** At end of input nothing more is printed. */
  lemma RunEof(m: Machine, input: seq<Byte>)
    requires Valid(m, input) && Step(m, input) == Eof
    ensures Run(m, input) == []
  {
  }

  /** Only `PKT_END` prints, and what it prints is one complete packet: the last `len` bytes read. */
  lemma StepEmits(m: Machine, input: seq<Byte>)
    requires Valid(m, input)
    ensures var r := Step(m, input);
      r.Next? && r.emitted != [] ==>
        && m.state == PktEnd && m.len <= m.pos
        && r.emitted == [Packet(m.len, input[m.pos - m.len..m.pos])] && WellFormed(r.emitted[0])
  {
  }

  // ---------------------------------------------------------------------------
  // Frames

  function Frame(p: Packet): seq<Byte>
  {
    [Marker0, Marker1, p.len] + p.payload
  }

  function Frames(ps: seq<Packet>): seq<Byte>
  {
    if ps == [] then [] else Frame(ps[0]) + Frames(ps[1..])
  }

  predicate AllWellFormed(ps: seq<Packet>)
  {
    forall i :: 0 <= i < |ps| ==> WellFormed(ps[i])
  }

  // ---------------------------------------------------------------------------
  // Printing, resetting and resynchronising

  /**
   * `PKT_END` prints one complete packet, the last `len` bytes read, and the
   * machine goes on through `PKT_BEGIN` to hunt for the next frame at the
   * same position, with `nread` and `len` back to zero.
   */
  lemma RunEnd(m: Machine, input: seq<Byte>)
    requires Valid(m, input) && m.state == PktEnd
    ensures m.len <= m.pos && WellFormed(Packet(m.len, input[m.pos - m.len..m.pos]))
    ensures Run(m, input) == [Packet(m.len, input[m.pos - m.len..m.pos])] + Run(Hunting(m.pos), input)
  {
  }

  /** `PKT_BEGIN` forgets the length and the count left by the previous packet. */
  lemma RunBegin(m: Machine, input: seq<Byte>)
    requires Valid(m, input) && m.state == PktBegin
    ensures Run(m, input) == Run(Hunting(m.pos), input)
  {
  }

  /** In `PKT_MARKER0` every byte other than `0x21` is discarded and the state does not change. */
  lemma {:induction false} SkipToMarker0(pos: nat, k: nat, input: seq<Byte>)
    requires pos + k <= |input|
    requires forall i :: pos <= i < pos + k ==> input[i] != Marker0
    ensures Run(Hunting(pos), input) == Run(Hunting(pos + k), input)
    decreases k
  {
    if k > 0 {
      assert input[pos] != Marker0;
      SkipToMarker0(pos + 1, k - 1, input);
    }
  }

  /**
   * In `PKT_MARKER1` every byte other than `0x22` is discarded and the state
   * stays `PKT_MARKER1`: the machine does not go back to hunting for `0x21`.
   */
  lemma {:induction false} SkipToMarker1(pos: nat, k: nat, input: seq<Byte>)
    requires pos + k <= |input|
    requires forall i :: pos <= i < pos + k ==> input[i] != Marker1
    ensures Run(Machine(PktMarker1, pos, 0, 0), input) == Run(Machine(PktMarker1, pos + k, 0, 0), input)
    decreases k
  {
    if k > 0 {
      assert input[pos] != Marker1;
      SkipToMarker1(pos + 1, k - 1, input);
    }
  }

  // ---------------------------------------------------------------------------
  // Well-formed frames

  /**
   * In `PKT_PAYLOAD` with the rest of the payload available, the machine
   * stores exactly the remaining `len - nread` bytes, whatever their values,
   * prints the packet and is back to hunting right after them.
   */
  lemma {:induction false} RunPayload(m: Machine, input: seq<Byte>)
    requires Valid(m, input) && m.state == PktPayload
    requires m.pos + (m.len - m.nread) <= |input|
    ensures var end := m.pos + (m.len - m.nread);
      Run(m, input) == [Packet(m.len, input[m.pos - m.nread..end])] + Run(Hunting(end), input)
    decreases m.len - m.nread
  {
    if m.nread == m.len {
      RunEnd(m.(state := PktEnd), input);
    } else {
      RunPayload(m.(pos := m.pos + 1, nread := m.nread + 1), input);
    }
  }

  /** The two markers and a length byte take the hunting machine to `PKT_PAYLOAD` with that length. */
  lemma RunHeader(pos: nat, input: seq<Byte>)
    requires pos + 3 <= |input|
    requires input[pos] == Marker0 && input[pos + 1] == Marker1
    ensures Run(Hunting(pos), input) == Run(Machine(PktPayload, pos + 3, 0, input[pos + 2]), input)
  {
    assert Run(Hunting(pos), input) == Run(Machine(PktMarker1, pos + 1, 0, 0), input);
    assert Run(Machine(PktMarker1, pos + 1, 0, 0), input) == Run(Machine(PktLen, pos + 2, 0, 0), input);
  }

  /** Where the header and the payload of a frame stand in the input. */
  lemma FrameAt(p: Packet, pos: nat, input: seq<Byte>)
    requires WellFormed(p)
    requires pos + |Frame(p)| <= |input| && input[pos..pos + |Frame(p)|] == Frame(p)
    ensures |Frame(p)| == 3 + p.len
    ensures input[pos] == Marker0 && input[pos + 1] == Marker1 && input[pos + 2] == p.len
    ensures input[pos + 3..pos + 3 + p.len] == p.payload
  {
    var end := pos + |Frame(p)|;
    var w := input[pos..end];
    assert w[0] == input[pos] && w[1] == input[pos + 1] && w[2] == input[pos + 2];
    assert input[pos + 3..end] == w[3..];
  }

  /**
   * A well-formed frame at the hunting position is printed as its packet,
   * whatever its length byte (0, `0x21` and `0x22` included) and payload.
   */
  lemma RunFrame(p: Packet, pos: nat, input: seq<Byte>)
    requires WellFormed(p)
    requires pos + |Frame(p)| <= |input| && input[pos..pos + |Frame(p)|] == Frame(p)
    ensures Run(Hunting(pos), input) == [p] + Run(Hunting(pos + |Frame(p)|), input)
  {
    FrameAt(p, pos, input);
    var m := Machine(PktPayload, pos + 3, 0, p.len);
    RunHeader(pos, input);
    assert Run(Hunting(pos), input) == Run(m, input);
    RunPayload(m, input);
    assert m.pos + (m.len - m.nread) == pos + |Frame(p)|;
    assert Packet(m.len, input[m.pos - m.nread..m.pos + (m.len - m.nread)]) == p;
  }

  /** Where the first frame of a run of frames and the rest stand in the input. */
  lemma FramesAt(ps: seq<Packet>, pos: nat, input: seq<Byte>)
    requires ps != []
    requires pos + |Frames(ps)| <= |input| && input[pos..pos + |Frames(ps)|] == Frames(ps)
    ensures var mid := pos + |Frame(ps[0])|;
      && mid + |Frames(ps[1..])| == pos + |Frames(ps)|
      && input[pos..mid] == Frame(ps[0])
      && input[mid..mid + |Frames(ps[1..])|] == Frames(ps[1..])
  {
    var f, rest := Frame(ps[0]), Frames(ps[1..]);
    var w := input[pos..pos + |Frames(ps)|];
    assert w == f + rest;
    assert w[..|f|] == f && w[|f|..] == rest;
    assert input[pos..pos + |f|] == w[..|f|];
    assert input[pos + |f|..pos + |f| + |rest|] == w[|f|..];
  }

  lemma ConsAppend<T>(s: seq<T>, t: seq<T>)
    requires s != []
    ensures [s[0]] + (s[1..] + t) == s + t
  {
    assert s == [s[0]] + s[1..];
  }

  lemma {:induction false} RunFrames(ps: seq<Packet>, pos: nat, input: seq<Byte>)
    requires AllWellFormed(ps)
    requires pos + |Frames(ps)| <= |input| && input[pos..pos + |Frames(ps)|] == Frames(ps)
    ensures Run(Hunting(pos), input) == ps + Run(Hunting(pos + |Frames(ps)|), input)
    decreases |ps|
  {
    if ps == [] {
      assert ps + Run(Hunting(pos), input) == Run(Hunting(pos), input);
    } else {
      FramesAt(ps, pos, input);
      var mid := pos + |Frame(ps[0])|;
      var end := pos + |Frames(ps)|;
      var rest := Run(Hunting(end), input);
      assert mid + |Frames(ps[1..])| == end;
      calc {
        Run(Hunting(pos), input);
        { RunFrame(ps[0], pos, input); }
        [ps[0]] + Run(Hunting(mid), input);
        { RunFrames(ps[1..], mid, input); }
        [ps[0]] + (ps[1..] + rest);
        { ConsAppend(ps, rest); }
        ps + rest;
      }
    }
  }

  /** Back-to-back well-formed frames are printed as exactly their packets, in input order. */
  lemma ParseFrames(ps: seq<Packet>)
    requires AllWellFormed(ps)
    ensures Parse(Frames(ps)) == ps
  {
    var input := Frames(ps);
    assert input[0..|input|] == input;
    RunBegin(Start, input);
    RunFrames(ps, 0, input);
    assert Run(Hunting(|input|), input) == [];
  }

  /** Where noise and the frames after it stand in the input. */
  lemma SuffixAt(noise: seq<Byte>, b: seq<Byte>, pos: nat, input: seq<Byte>)
    requires pos <= |input| && input[pos..] == noise + b
    ensures |input| == pos + |noise| + |b|
    ensures input[pos + |noise|..pos + |noise| + |b|] == b
    ensures forall i :: pos <= i < pos + |noise| ==> input[i] == noise[i - pos]
  {
    assert input[pos + |noise|..pos + |noise| + |b|] == input[pos..][|noise|..];
    forall i | pos <= i < pos + |noise|
      ensures input[i] == noise[i - pos]
    {
      assert input[i] == input[pos..][i - pos];
    }
  }

  /**
   * No `0x21` in `noise` has a `0x22` after it in `noise`: the noise can move
   * the machine from `PKT_MARKER0` to `PKT_MARKER1` but never on to `PKT_LEN`.
   */
  predicate NoHeaderIn(noise: seq<Byte>)
  {
    forall i, j :: 0 <= i < j < |noise| ==> !(noise[i] == Marker0 && noise[j] == Marker1)
  }

  /** On a `0x21`, waiting for `0x22` and hunting for `0x21` come to the same. */
  lemma Marker1AtMarker0(pos: nat, input: seq<Byte>)
    requires pos < |input| && input[pos] == Marker0
    ensures Run(Machine(PktMarker1, pos, 0, 0), input) == Run(Hunting(pos), input)
  {
    assert Run(Machine(PktMarker1, pos, 0, 0), input) == Run(Machine(PktMarker1, pos + 1, 0, 0), input);
    assert Run(Hunting(pos), input) == Run(Machine(PktMarker1, pos + 1, 0, 0), input);
  }

  /** Frames up to the end of the input, from `PKT_MARKER0` or `PKT_MARKER1`: exactly their packets are printed. */
  lemma RunFramesToEnd(qs: seq<Packet>, pos: nat, input: seq<Byte>)
    requires AllWellFormed(qs)
    requires pos <= |input| && input[pos..] == Frames(qs)
    ensures Run(Hunting(pos), input) == qs
    ensures Run(Machine(PktMarker1, pos, 0, 0), input) == qs
  {
    assert input[pos..pos + |Frames(qs)|] == Frames(qs);
    RunFrames(qs, pos, input);
    assert Run(Hunting(|input|), input) == [];
    if qs != [] {
      FramesAt(qs, pos, input);
      FrameAt(qs[0], pos, input);
      Marker1AtMarker0(pos, input);
    } else {
      assert Run(Machine(PktMarker1, pos, 0, 0), input) == [];
    }
  }

  /** Dropping the first byte of noise keeps it free of headers. */
  lemma NoHeaderInTail(noise: seq<Byte>)
    requires noise != [] && NoHeaderIn(noise)
    ensures NoHeaderIn(noise[1..])
  {
    forall i, j | 0 <= i < j < |noise| - 1
      ensures !(noise[1..][i] == Marker0 && noise[1..][j] == Marker1)
    {
      assert noise[1..][i] == noise[i + 1] && noise[1..][j] == noise[j + 1];
    }
  }

  /** In `PKT_MARKER1`, noise without `0x22` and then frames: only the frames' packets are printed. */
  lemma Marker1NoiseThenFrames(noise: seq<Byte>, qs: seq<Packet>, pos: nat, input: seq<Byte>)
    requires AllWellFormed(qs)
    requires forall i :: 0 <= i < |noise| ==> noise[i] != Marker1
    requires pos <= |input| && input[pos..] == noise + Frames(qs)
    ensures Run(Machine(PktMarker1, pos, 0, 0), input) == qs
  {
    var mid := pos + |noise|;
    SuffixAt(noise, Frames(qs), pos, input);
    assert input[mid..] == Frames(qs);
    SkipToMarker1(pos, |noise|, input);
    RunFramesToEnd(qs, mid, input);
  }

  /**
   * Noise in which no `0x21` is followed by a `0x22`, then frames, at the
   * hunting position: the noise is discarded and only the frames' packets
   * are printed. A `0x21` in the noise leaves the machine in `PKT_MARKER1`,
   * where it skips the rest of the noise and the first frame's `0x21`.
   */
  lemma {:induction false} RunNoiseThenFrames(noise: seq<Byte>, qs: seq<Packet>, pos: nat, input: seq<Byte>)
    requires AllWellFormed(qs) && NoHeaderIn(noise)
    requires pos <= |input| && input[pos..] == noise + Frames(qs)
    ensures Run(Hunting(pos), input) == qs
    decreases |noise|
  {
    if noise == [] {
      assert input[pos..] == Frames(qs);
      RunFramesToEnd(qs, pos, input);
    } else {
      assert input[pos] == noise[0] && input[pos + 1..] == noise[1..] + Frames(qs);
      if noise[0] != Marker0 {
        assert Run(Hunting(pos), input) == Run(Hunting(pos + 1), input);
        NoHeaderInTail(noise);
        RunNoiseThenFrames(noise[1..], qs, pos + 1, input);
      } else {
        assert Run(Hunting(pos), input) == Run(Machine(PktMarker1, pos + 1, 0, 0), input);
        forall i | 0 <= i < |noise[1..]|
          ensures noise[1..][i] != Marker1
        {
          assert noise[1..][i] == noise[i + 1];
        }
        Marker1NoiseThenFrames(noise[1..], qs, pos + 1, input);
      }
    }
  }

  /**
   * Noise between two runs of frames in which no `0x21` is followed by a
   * `0x22` is discarded and disturbs neither the packets before it nor those
   * after it.
   */
  lemma ParseFramesWithNoise(ps: seq<Packet>, noise: seq<Byte>, qs: seq<Packet>)
    requires AllWellFormed(ps) && AllWellFormed(qs)
    requires NoHeaderIn(noise)
    ensures Parse(Frames(ps) + noise + Frames(qs)) == ps + qs
  {
    var a := Frames(ps);
    var input := a + (noise + Frames(qs));
    assert input == a + noise + Frames(qs);
    assert input[0..|a|] == a;
    assert input[|a|..] == noise + Frames(qs);
    calc {
      Parse(input);
      { RunBegin(Start, input); }
      Run(Hunting(0), input);
      { RunFrames(ps, 0, input); }
      ps + Run(Hunting(|a|), input);
      { RunNoiseThenFrames(noise, qs, |a|, input); }
      ps + qs;
    }
  }

  // ---------------------------------------------------------------------------
  // Truncated frames

  /** Input that ends inside a payload prints nothing for that packet. */
  lemma {:induction false} RunPayloadTruncated(m: Machine, input: seq<Byte>)
    requires Valid(m, input) && m.state == PktPayload
    requires m.pos + (m.len - m.nread) > |input|
    ensures Run(m, input) == []
    decreases |input| - m.pos
  {
    if m.pos < |input| {
      RunPayloadTruncated(m.(pos := m.pos + 1, nread := m.nread + 1), input);
    }
  }

  /** Input that ends anywhere inside a frame prints nothing for it. */
  lemma RunPartialFrame(q: Packet, k: nat, pos: nat, input: seq<Byte>)
    requires WellFormed(q) && k < |Frame(q)|
    requires pos + k == |input| && input[pos..] == Frame(q)[..k]
    ensures Run(Hunting(pos), input) == []
  {
    var m1 := Machine(PktMarker1, pos + 1, 0, 0);
    var m2 := Machine(PktLen, pos + 2, 0, 0);
    var m3 := Machine(PktPayload, pos + 3, 0, q.len);
    if k > 0 {
      assert input[pos] == input[pos..][0] == Marker0;
      assert Run(Hunting(pos), input) == Run(m1, input);
      if k > 1 {
        assert input[pos + 1] == input[pos..][1] == Marker1;
        assert Run(m1, input) == Run(m2, input);
        if k > 2 {
          assert input[pos + 2] == input[pos..][2] == q.len;
          assert Run(m2, input) == Run(m3, input);
          RunPayloadTruncated(m3, input);
        }
      }
    }
  }

  /**
   * Frames followed by a frame cut short by the end of input: only the
   * complete frames are printed.
   */
  lemma ParseTruncated(ps: seq<Packet>, q: Packet, k: nat)
    requires AllWellFormed(ps) && WellFormed(q) && k < |Frame(q)|
    ensures Parse(Frames(ps) + Frame(q)[..k]) == ps
  {
    var a := Frames(ps);
    var input := a + Frame(q)[..k];
    assert input[0..|a|] == a;
    assert input[|a|..] == Frame(q)[..k];
    RunBegin(Start, input);
    RunFrames(ps, 0, input);
    RunPartialFrame(q, k, |a|, input);
    assert ps + [] == ps;
  }

  /** Empty input prints nothing. */
  lemma ParseEmpty()
    ensures Parse([]) == []
  {
    assert Run(Start, []) == Run(Hunting(0), []);
  }

  // ---------------------------------------------------------------------------
  // What every printed packet is

  /**
   * Packet `p` stands in `input` as a `0x22` byte, its length byte and its
   * payload, contiguously, after some `0x21` byte.
   */
  ghost predicate Occurs(p: Packet, input: seq<Byte>)
  {
    exists j: nat :: j + 2 + |p.payload| <= |input| && Marker0 in input[..j] && input[j] == Marker1
      && input[j + 1] == p.len && input[j + 2..j + 2 + |p.payload|] == p.payload
  }

  /** Every packet in `ps` is complete and occurs in `input`. */
  ghost predicate AllSound(ps: seq<Packet>, input: seq<Byte>)
  {
    forall i :: 0 <= i < |ps| ==> WellFormed(ps[i]) && Occurs(ps[i], input)
  }

  lemma SoundConcat(ps: seq<Packet>, qs: seq<Packet>, input: seq<Byte>)
    requires AllSound(ps, input) && AllSound(qs, input)
    ensures AllSound(ps + qs, input)
  {
    forall i | 0 <= i < |ps + qs|
      ensures WellFormed((ps + qs)[i]) && Occurs((ps + qs)[i], input)
    {
      if i >= |ps| {
        assert (ps + qs)[i] == qs[i - |ps|];
      }
    }
  }

  /** What the input read so far says about the machine's variables. */
  ghost predicate Consistent(m: Machine, input: seq<Byte>)
  {
    && Valid(m, input)
    && (m.state.PktMarker1? ==> Marker0 in input[..m.pos])
    && (m.state.PktLen? ==> m.pos >= 2 && Marker0 in input[..m.pos - 1] && input[m.pos - 1] == Marker1)
    && (m.state.PktPayload? || m.state.PktEnd? ==>
         var s := m.pos - m.nread;
         s >= 2 && Marker0 in input[..s - 2] && input[s - 2] == Marker1 && input[s - 1] == m.len)
  }

  lemma PrefixGrows(input: seq<Byte>, j: nat)
    requires j < |input|
    ensures input[..j + 1] == input[..j] + [input[j]]
  {
  }

  /** Every pass keeps the machine consistent with the input read so far. */
  lemma StepConsistent(m: Machine, input: seq<Byte>)
    requires Consistent(m, input)
    ensures Step(m, input).Next? ==> Consistent(Step(m, input).machine, input)
  {
    if m.pos < |input| {
      PrefixGrows(input, m.pos);
    }
    match m.state
    case PktLen =>
      if m.pos < |input| {
        assert input[..m.pos + 1 - 2] == input[..m.pos - 1];
      }
    case _ =>
  }

  /** What one consistent pass prints is sound. */
  lemma StepSound(m: Machine, input: seq<Byte>)
    requires Consistent(m, input) && Step(m, input).Next?
    ensures AllSound(Step(m, input).emitted, input)
  {
    StepEmits(m, input);
    var out := Step(m, input).emitted;
    if out != [] {
      var j: nat := m.pos - m.len - 2;
      assert j + 2 + m.len == m.pos;
      assert Occurs(out[0], input);
    }
  }

  /**
   * Every packet the machine prints is complete (`nread == len`) and was read
   * verbatim from the input right after a `0x22` byte and its length byte,
   * with a `0x21` earlier on.
   */
  lemma RunSound(m: Machine, input: seq<Byte>)
    requires Consistent(m, input)
    ensures AllSound(Run(m, input), input)
    decreases |input| - m.pos, Rank(m.state)
  {
    match Step(m, input)
    case Eof =>
      RunEof(m, input);
    case Next(m', out) =>
      StepConsistent(m, input);
      StepSound(m, input);
      RunSound(m', input);
      SoundConcat(out, Run(m', input), input);
      RunNext(m, m', out, input);
  }

  lemma ParseSound(input: seq<Byte>)
    ensures AllSound(Parse(input), input)
  {
    RunSound(Start, input);
  }

  // ---------------------------------------------------------------------------
  // Literal inputs

  /** From `PKT_MARKER1` on a `0x22` and a length byte, the machine is in `PKT_PAYLOAD` with that length. */
  lemma RunHeaderTail(pos: nat, input: seq<Byte>)
    requires pos + 2 <= |input| && input[pos] == Marker1
    ensures Run(Machine(PktMarker1, pos, 0, 0), input) == Run(Machine(PktPayload, pos + 2, 0, input[pos + 1]), input)
  {
    assert Run(Machine(PktMarker1, pos, 0, 0), input) == Run(Machine(PktLen, pos + 1, 0, 0), input);
  }

  /**
   * `0x21 0x21 0x00 0x21 0x22 0x00`: the second and third `0x21` and the
   * `0x00` are swallowed in `PKT_MARKER1`, and one zero-length packet is printed.
   */
  lemma DoubleMarker0Example(input: seq<Byte>)
    requires input == [0x21, 0x21, 0x00, 0x21, 0x22, 0x00]
    ensures Parse(input) == [Packet(0, [])]
  {
    RunBegin(Start, input);
    assert Run(Hunting(0), input) == Run(Machine(PktMarker1, 1, 0, 0), input);
    SkipToMarker1(1, 3, input);
    RunHeaderTail(4, input);
    RunPayload(Machine(PktPayload, 6, 0, 0), input);
    assert input[6..6] == [];
    assert Run(Hunting(6), input) == [];
  }

  /**
   * `0x21 0x00 0x22 0x01 0x41`: a byte between the markers does not send the
   * machine back to `PKT_MARKER0`, so the packet `{  1} 41` is printed.
   */
  lemma Marker1MismatchExample(input: seq<Byte>)
    requires input == [0x21, 0x00, 0x22, 0x01, 0x41]
    ensures Parse(input) == [Packet(1, [0x41])]
  {
    RunBegin(Start, input);
    assert Run(Hunting(0), input) == Run(Machine(PktMarker1, 1, 0, 0), input);
    SkipToMarker1(1, 1, input);
    RunHeaderTail(2, input);
    RunPayload(Machine(PktPayload, 4, 0, 1), input);
    assert input[4..5] == [0x41];
    assert Run(Hunting(5), input) == [];
  }

  /**
   * `21 22 01 41`, then the noise `21 05`, then `21 22 00`: the `0x21` of the
   * noise only delays the search for `0x22`, and both packets are printed.
   */
  lemma NoiseBetweenFramesExample(input: seq<Byte>)
    requires input == [0x21, 0x22, 0x01, 0x41, 0x21, 0x05, 0x21, 0x22, 0x00]
    ensures Parse(input) == [Packet(1, [0x41]), Packet(0, [])]
  {
    var ps, noise, qs := [Packet(1, [0x41])], [0x21, 0x05], [Packet(0, [])];
    assert Frames(ps) == [0x21, 0x22, 0x01, 0x41] by {
      assert Frames(ps[1..]) == [];
    }
    assert Frames(qs) == [0x21, 0x22, 0x00] by {
      assert Frames(qs[1..]) == [];
    }
    assert input == Frames(ps) + noise + Frames(qs);
    ParseFramesWithNoise(ps, noise, qs);
  }

  /**
   * `21 22 00`, then `21 00 22`, then the frame `21 22 01 41`: the `0x21 .. 0x22`
   * in between is taken for a header, the frame's own `0x21` for a length of
   * 33, and end of input comes inside that payload, so the last frame is
   * not printed.
   */
  lemma HeaderNoiseSwallowsFrameExample(input: seq<Byte>)
    requires input == [0x21, 0x22, 0x00, 0x21, 0x00, 0x22, 0x21, 0x22, 0x01, 0x41]
    ensures Parse(input) == [Packet(0, [])]
  {
    RunBegin(Start, input);
    assert input[0..3] == Frame(Packet(0, []));
    RunFrame(Packet(0, []), 0, input);
    assert Run(Hunting(3), input) == Run(Machine(PktMarker1, 4, 0, 0), input);
    SkipToMarker1(4, 1, input);
    RunHeaderTail(5, input);
    RunPayloadTruncated(Machine(PktPayload, 7, 0, 0x21), input);
  }

  // ---------------------------------------------------------------------------
  // The program's main loop

  /**
   * One pass of the `switch` in `main`, on the packet record's payload buffer:
   * it makes the transition `Step`, stores the payload byte it
   * reads in the buffer, and returns the text it writes to the packet output
   * stream. At end of input nothing more is printed.
   */
  method Pass(input: seq<Byte>, payload: array<Byte>, m: Machine) returns (r: StepResult, line: string)
    requires payload.Length == MaxPayload
    requires Valid(m, input) && payload[..m.nread] == input[m.pos - m.nread..m.pos]
    modifies payload
    ensures r == Step(m, input)
    ensures r.Next? ==> payload[..r.machine.nread] == input[r.machine.pos - r.machine.nread..r.machine.pos]
    ensures r.Next? ==> line == Output(r.emitted)
    ensures r.Eof? ==> line == ""
  {
    line := "";
    match m.state {
      case PktBegin =>
        r := Next(Machine(PktMarker0, m.pos, 0, 0), []);
      case PktMarker0 =>
        if m.pos == |input| {
          return Eof, line;
        }
        var readbyte := input[m.pos];
        if readbyte == Marker0 {
          r := Next(m.(state := PktMarker1, pos := m.pos + 1), []);
        } else {
          r := Next(m.(pos := m.pos + 1), []);
        }
      case PktMarker1 =>
        if m.pos == |input| {
          return Eof, line;
        }
        var readbyte := input[m.pos];
        if readbyte == Marker1 {
          r := Next(m.(state := PktLen, pos := m.pos + 1), []);
        } else {
          r := Next(m.(pos := m.pos + 1), []);
        }
      case PktLen =>
        if m.pos == |input| {
          return Eof, line;
        }
        var readbyte := input[m.pos];
        r := Next(m.(state := PktPayload, pos := m.pos + 1, len := readbyte), []);
      case PktPayload =>
        if m.nread == m.len {
          r := Next(m.(state := PktEnd), []);
        } else {
          assert m.nread < MaxPayload;
          if m.pos == |input| {
            return Eof, line;
          }
          var readbyte := input[m.pos];
          payload[m.nread] := readbyte;
          assert payload[..m.nread + 1] == input[m.pos - m.nread..m.pos] + [readbyte];
          assert input[m.pos - m.nread..m.pos + 1] == input[m.pos - m.nread..m.pos] + [readbyte];
          r := Next(m.(pos := m.pos + 1, nread := m.nread + 1), []);
        }
      case PktEnd =>
        line := FormatPacket(payload, m.len);
        var p := Packet(m.len, payload[..m.len]);
        assert p.payload == input[m.pos - m.len..m.pos];
        OutputAppend([], p);
        r := Next(m.(state := PktBegin), [p]);
    }
  }

  /**
   * The `main` loop over the whole input: returns the packets printed and the
   * text written to the packet output stream, with the payload stored in the
   * fixed `MaxPayload`-byte buffer of the packet record.
   */
  method ParseStream(input: seq<Byte>) returns (packets: seq<Packet>, output: string)
    ensures packets == Parse(input)
    ensures output == Output(packets)
  {
    var payload := new Byte[MaxPayload];
    var m := Start;
    packets, output := [], "";
    while true
      invariant Valid(m, input) && payload[..m.nread] == input[m.pos - m.nread..m.pos]
      invariant packets + Run(m, input) == Parse(input)
      invariant output == Output(packets)
      decreases |input| - m.pos, Rank(m.state)
    {
      var r, line := Pass(input, payload, m);
      if r.Eof? {
        RunEof(m, input);
        return;
      }
      RunNext(m, r.machine, r.emitted, input);
      AppendAssoc(packets, r.emitted, Run(r.machine, input));
      OutputConcat(packets, r.emitted);
      packets, output, m := packets + r.emitted, output + line, r.machine;
    }
  }
}
