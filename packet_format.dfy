/**
 * The packet output line of the serial message parser (`print_packet` in
 * smparser.c): `{`, the payload length right-justified in a field of width
 * three (`%3d`), `}`, then for every payload byte a space and the byte in
 * upper-case hexadecimal without zero padding (`%X`), then a newline.
 *
 * Besides the formatter itself the module holds a decoder for such lines,
 * so that the format is pinned down by a round trip, and the character set
 * the requirements allow on the packet output stream.
 */
module PacketFormat {
  import opened Optional

  /** An 8-bit value, as C's `unsigned char`. */
  type Byte = b: int | 0 <= b < 256

  /** A packet as printed: the declared length byte and the payload bytes. */
  datatype Packet = Packet(len: Byte, payload: seq<Byte>)

  /** A complete packet carries exactly as many payload bytes as its length byte says. */
  predicate WellFormed(p: Packet)
  {
    |p.payload| == p.len
  }

  // ---------------------------------------------------------------------------
  // Digits

  predicate IsDecDigit(c: char)
  {
    '0' <= c <= '9'
  }

  predicate IsHexDigit(c: char)
  {
    '0' <= c <= '9' || 'A' <= c <= 'F'
  }

  function DecDigit(d: int): (c: char)
    requires 0 <= d < 10
    ensures IsDecDigit(c) && c as int - '0' as int == d
  {
    ('0' as int + d) as char
  }

  /** The upper-case hexadecimal digit of `%X`. */
  function HexDigit(d: int): (c: char)
    requires 0 <= d < 16
    ensures IsHexDigit(c) && HexValue(c) == d
  {
    if d < 10 then ('0' as int + d) as char else ('A' as int + d - 10) as char
  }

  function HexValue(c: char): (v: int)
    requires IsHexDigit(c)
    ensures 0 <= v < 16
  {
    if c <= '9' then c as int - '0' as int else c as int - 'A' as int + 10
  }

  // ---------------------------------------------------------------------------
  // The two printf conversions

  /** `%3d` of a length byte: always exactly three characters, padded with blanks, never with zeros. */
  function Width3(n: Byte): (s: string)
    ensures |s| == 3
    ensures n < 10 ==> s[0] == ' ' && s[1] == ' '
    ensures 10 <= n < 100 ==> s[0] == ' ' && s[1] != '0'
    ensures n >= 100 ==> s[0] != '0'
  {
    if n < 10 then "  " + [DecDigit(n)]
    else if n < 100 then " " + [DecDigit(n / 10), DecDigit(n % 10)]
    else [DecDigit(n / 100), DecDigit(n / 10 % 10), DecDigit(n % 10)]
  }

  /** `%X` of a byte: one digit below 16, two digits otherwise, never a leading zero. */
  function Hex(b: Byte): (s: string)
    ensures 1 <= |s| <= 2
    ensures |s| == 1 <==> b < 16
    ensures |s| == 2 ==> s[0] != '0'
    ensures forall i :: 0 <= i < |s| ==> IsHexDigit(s[i])
  {
    if b < 16 then [HexDigit(b)] else [HexDigit(b / 16), HexDigit(b % 16)]
  }

  /** The ` %X` tokens of a payload, in order. */
  function HexTokens(payload: seq<Byte>): string
  {
    if payload == [] then "" else " " + Hex(payload[0]) + HexTokens(payload[1..])
  }

  /** The line `print_packet` writes for a packet. */
  function Line(p: Packet): string
  {
    "{" + Width3(p.len) + "}" + HexTokens(p.payload) + "\n"
  }

  /** Everything written to the packet output stream for the packets in order. */
  function Output(ps: seq<Packet>): string
  {
    if ps == [] then "" else Output(ps[..|ps| - 1]) + Line(ps[|ps| - 1])
  }

  // ---------------------------------------------------------------------------
  // The decoder that reads a line back

  /** Reads a `%3d` field back: blanks then one to three decimal digits. */
  function ParseWidth3(s: string): Option<Byte>
  {
    if |s| != 3 then None
    else if s[0] == ' ' && s[1] == ' ' && IsDecDigit(s[2]) then
      Some(s[2] as int - '0' as int)
    else if s[0] == ' ' && IsDecDigit(s[1]) && IsDecDigit(s[2]) then
      Some(10 * (s[1] as int - '0' as int) + (s[2] as int - '0' as int))
    else if IsDecDigit(s[0]) && IsDecDigit(s[1]) && IsDecDigit(s[2]) then
      var v := 100 * (s[0] as int - '0' as int) + 10 * (s[1] as int - '0' as int) + (s[2] as int - '0' as int);
      if v < 256 then Some(v) else None
    else None
  }

  /** Reads a run of ` %X` tokens back; a token is a blank and one or two hex digits. */
  function ParseTokens(s: string): Option<seq<Byte>>
    decreases |s|
  {
    if s == [] then Some([])
    else if s[0] != ' ' || |s| < 2 || !IsHexDigit(s[1]) then None
    else if |s| >= 3 && IsHexDigit(s[2]) then
      match ParseTokens(s[3..])
      case None => None
      case Some(rest) => Some([16 * HexValue(s[1]) + HexValue(s[2])] + rest)
    else
      match ParseTokens(s[2..])
      case None => None
      case Some(rest) => Some([HexValue(s[1])] + rest)
  }

  /** Reads one output line back into the packet it reports. */
  function ParseLine(s: string): Option<Packet>
  {
    if |s| < 6 || s[0] != '{' || s[4] != '}' || s[|s| - 1] != '\n' then None
    else
      match (ParseWidth3(s[1..4]), ParseTokens(s[5..|s| - 1]))
      case (Some(len), Some(payload)) => Some(Packet(len, payload))
      case _ => None
  }

  // ---------------------------------------------------------------------------
  // Properties of the format

  lemma Width3RoundTrip(n: Byte)
    ensures ParseWidth3(Width3(n)) == Some(n)
  {
    var s := Width3(n);
    if n >= 100 {
      assert s[0] as int - '0' as int == n / 100;
      assert 100 * (n / 100) + 10 * (n / 10 % 10) + n % 10 == n;
    }
  }

  /** A byte's `%X` text read back as hexadecimal is the byte. */
  lemma HexRoundTrip(b: Byte)
    ensures |Hex(b)| == 1 ==> HexValue(Hex(b)[0]) == b
    ensures |Hex(b)| == 2 ==> 16 * HexValue(Hex(b)[0]) + HexValue(Hex(b)[1]) == b
  {
  }

  /** One ` %X` token in front of further tokens is read back as its byte. */
  lemma ParseToken(b: Byte, rest: string)
    requires rest == [] || rest[0] == ' '
    ensures ParseTokens(" " + Hex(b) + rest) ==
      match ParseTokens(rest)
      case None => None
      case Some(t) => Some([b] + t)
  {
    var s := " " + Hex(b) + rest;
    HexRoundTrip(b);
    if b < 16 {
      assert s[1] == Hex(b)[0];
      assert s[2..] == rest;
      assert |s| >= 3 ==> s[2] == ' ';
    } else {
      assert s[1] == Hex(b)[0] && s[2] == Hex(b)[1];
      assert s[3..] == rest;
    }
  }

  lemma {:induction false} HexTokensRoundTrip(payload: seq<Byte>)
    ensures ParseTokens(HexTokens(payload)) == Some(payload)
    decreases |payload|
  {
    if payload != [] {
      var rest := HexTokens(payload[1..]);
      assert rest == [] || rest[0] == ' ';
      ParseToken(payload[0], rest);
      HexTokensRoundTrip(payload[1..]);
      assert payload == [payload[0]] + payload[1..];
    }
  }

  /**
   * Decoding a printed line gives back the length and every payload byte in
   * order; in particular a complete packet's line holds exactly `len` hex tokens.
   */
  lemma LineRoundTrip(p: Packet)
    ensures ParseLine(Line(p)) == Some(p)
  {
    var s := Line(p);
    var w := Width3(p.len);
    var t := HexTokens(p.payload);
    assert s == "{" + w + "}" + t + "\n";
    assert s[1..4] == w;
    assert s[5..|s| - 1] == t;
    Width3RoundTrip(p.len);
    HexTokensRoundTrip(p.payload);
  }

  /** Two packets with the same output line are the same packet. */
  lemma LineInjective(p: Packet, q: Packet)
    requires Line(p) == Line(q)
    ensures p == q
  {
    LineRoundTrip(p);
    LineRoundTrip(q);
  }

  /** A zero-length packet prints as its header alone. */
  lemma EmptyPacketLine()
    ensures Line(Packet(0, [])) == "{  0}\n"
  {
  }

  lemma {:induction false} HexTokensAppend(payload: seq<Byte>, b: Byte)
    ensures HexTokens(payload + [b]) == HexTokens(payload) + " " + Hex(b)
    decreases |payload|
  {
    if payload == [] {
      assert payload + [b] == [b];
    } else {
      assert (payload + [b])[1..] == payload[1..] + [b];
      HexTokensAppend(payload[1..], b);
    }
  }

  // ---------------------------------------------------------------------------
  // The output character set

  /**
   * The characters the packet output stream may contain: blank, the decimal
   * digits, the braces, `A` to `F` and newline.
   */
  predicate InOutputAlphabet(c: char)
  {
    c == ' ' || IsDecDigit(c) || c == '{' || c == '}' || ('A' <= c <= 'F') || c == '\n'
  }

  /** The character list of the requirements text, literally: it has no `7`. */
  const StatedAlphabet: string := " 012345689{}ABCDEF\n"

  /** The literal list rejects a character that the formatter prints for length 7. */
  lemma StatedAlphabetMissesSeven()
    ensures '7' in Line(Packet(7, [])) && '7' !in StatedAlphabet
  {
    assert Line(Packet(7, []))[3] == '7';
  }

  lemma {:induction false} HexTokensAlphabet(payload: seq<Byte>)
    ensures forall i :: 0 <= i < |HexTokens(payload)| ==> InOutputAlphabet(HexTokens(payload)[i])
    decreases |payload|
  {
    if payload != [] {
      HexTokensAlphabet(payload[1..]);
      var h := Hex(payload[0]);
      var rest := HexTokens(payload[1..]);
      assert HexTokens(payload) == " " + h + rest;
      forall i | 0 <= i < |HexTokens(payload)|
        ensures InOutputAlphabet(HexTokens(payload)[i])
      {
        if 1 <= i < 1 + |h| {
          assert HexTokens(payload)[i] == h[i - 1];
        } else if i >= 1 + |h| {
          assert HexTokens(payload)[i] == rest[i - 1 - |h|];
        }
      }
    }
  }

  lemma LineAlphabet(p: Packet)
    ensures forall i :: 0 <= i < |Line(p)| ==> InOutputAlphabet(Line(p)[i])
  {
    var w := Width3(p.len);
    var t := HexTokens(p.payload);
    HexTokensAlphabet(p.payload);
    assert Line(p) == "{" + w + "}" + t + "\n";
    forall i | 0 <= i < |Line(p)|
      ensures InOutputAlphabet(Line(p)[i])
    {
      if 1 <= i < 4 {
        assert Line(p)[i] == w[i - 1];
      } else if 5 <= i < 5 + |t| {
        assert Line(p)[i] == t[i - 5];
      }
    }
  }

  /** Nothing outside the allowed character set ever reaches the packet output. */
  lemma {:induction false} OutputAlphabet(ps: seq<Packet>)
    ensures forall i :: 0 <= i < |Output(ps)| ==> InOutputAlphabet(Output(ps)[i])
    decreases |ps|
  {
    if ps != [] {
      var front := Output(ps[..|ps| - 1]);
      var line := Line(ps[|ps| - 1]);
      OutputAlphabet(ps[..|ps| - 1]);
      LineAlphabet(ps[|ps| - 1]);
      forall i | 0 <= i < |Output(ps)|
        ensures InOutputAlphabet(Output(ps)[i])
      {
        if i >= |front| {
          assert Output(ps)[i] == line[i - |front|];
        }
      }
    }
  }

  lemma OutputAppend(ps: seq<Packet>, p: Packet)
    ensures Output(ps + [p]) == Output(ps) + Line(p)
  {
    assert (ps + [p])[..|ps|] == ps;
  }

  lemma AppendAssoc<T>(a: seq<T>, b: seq<T>, c: seq<T>)
    ensures a + (b + c) == (a + b) + c
  {
  }

  /** The output for two runs of packets is the output for the first followed by that for the second. */
  lemma {:induction false} OutputConcat(ps: seq<Packet>, qs: seq<Packet>)
    ensures Output(ps + qs) == Output(ps) + Output(qs)
    decreases |qs|
  {
    if qs == [] {
      assert ps + qs == ps;
    } else {
      var front, last := qs[..|qs| - 1], qs[|qs| - 1];
      assert qs == front + [last];
      AppendAssoc(ps, front, [last]);
      calc {
        Output(ps + qs);
        Output((ps + front) + [last]);
        { OutputAppend(ps + front, last); }
        Output(ps + front) + Line(last);
        { OutputConcat(ps, front); }
        (Output(ps) + Output(front)) + Line(last);
        { AppendAssoc(Output(ps), Output(front), Line(last)); }
        Output(ps) + (Output(front) + Line(last));
        { OutputAppend(front, last); }
        Output(ps) + Output(qs);
      }
    }
  }

  // ---------------------------------------------------------------------------
  // print_packet

  /** Formats the first `len` bytes of the packet buffer, as `print_packet` does. */
  method FormatPacket(buffer: array<Byte>, len: Byte) returns (line: string)
    requires len <= buffer.Length
    ensures line == Line(Packet(len, buffer[..len]))
  {
    line := "{" + Width3(len) + "}";
    var i := 0;
    while i < len
      invariant 0 <= i <= len
      invariant line == "{" + Width3(len) + "}" + HexTokens(buffer[..i])
    {
      assert buffer[..i + 1] == buffer[..i] + [buffer[i]];
      HexTokensAppend(buffer[..i], buffer[i]);
      line := line + " " + Hex(buffer[i]);
      i := i + 1;
    }
    line := line + "\n";
  }
}
