/** The text transforms both serial drivers share (`write_str` and
    `read_char` of the PL011 UART and of the mini UART): on output a
    carriage return goes in front of every line feed; on input the low byte
    of the data register is the character and a carriage return reads as a
    line feed. */
module Console {
  import opened Words

  const LF: char := '\n'
  const CR: char := '\r'

  /** The characters `write_str` hands to `write_char`, in order. */
  function Crlf(s: string): (o: string)
    ensures |o| == |s| + Newlines(s)
  {
    if |s| == 0 then []
    else if s[0] == LF then [CR, LF] + Crlf(s[1..])
    else [s[0]] + Crlf(s[1..])
  }

  /** The number of line feeds in `s`. */
  function Newlines(s: string): nat {
    if |s| == 0 then 0 else (if s[0] == LF then 1 else 0) + Newlines(s[1..])
  }

  /** The receiving side's reading of a `Crlf` stream: a carriage return
      right before a line feed is dropped, everything else is kept. */
  function Uncrlf(o: string): string {
    if |o| == 0 then []
    else if |o| >= 2 && o[0] == CR && o[1] == LF then [LF] + Uncrlf(o[2..])
    else [o[0]] + Uncrlf(o[1..])
  }

  /** The stream never starts with a bare line feed: it starts with the
      input's first character, or with the carriage return put before it. */
  lemma CrlfHead(s: string)
    requires |s| > 0
    ensures |Crlf(s)| > 0 && Crlf(s)[0] != LF
  {
  }

  /** Nothing is lost or reordered on output: dropping each inserted carriage
      return gives back exactly the text that was written, including any
      carriage returns and line feeds it held of its own. */
  lemma {:induction false} UncrlfCrlf(s: string)
    ensures Uncrlf(Crlf(s)) == s
    decreases |s|
  {
    if |s| == 0 {
    } else if s[0] == LF {
      var t := Crlf(s[1..]);
      assert Crlf(s) == [CR, LF] + t;
      assert (Crlf(s))[2..] == t;
      UncrlfCrlf(s[1..]);
      assert s == [LF] + s[1..];
    } else {
      var t := Crlf(s[1..]);
      assert Crlf(s) == [s[0]] + t;
      assert (Crlf(s))[1..] == t;
      if s[0] == CR && |t| > 0 {
        CrlfHead(s[1..]);
      }
      UncrlfCrlf(s[1..]);
      assert s == [s[0]] + s[1..];
    }
  }

  /** Every line feed on the wire has a carriage return right before it. */
  lemma {:induction false} CrlfPrecedesEveryLf(s: string)
    ensures forall i | 0 <= i < |Crlf(s)| && Crlf(s)[i] == LF :: i > 0 && Crlf(s)[i - 1] == CR
    decreases |s|
  {
    if |s| > 0 {
      CrlfPrecedesEveryLf(s[1..]);
      var t := Crlf(s[1..]);
      var k := if s[0] == LF then 2 else 1;
      assert Crlf(s)[k..] == t;
      forall i | 0 <= i < |Crlf(s)| && Crlf(s)[i] == LF
        ensures i > 0 && Crlf(s)[i - 1] == CR
      {
        if i >= k {
          assert Crlf(s)[i] == t[i - k];
          if i > k {
            assert Crlf(s)[i - 1] == t[i - 1 - k];
          }
        }
      }
    }
  }

  /** Writing in two pieces puts the same characters on the wire as writing
      the whole at once. */
  lemma {:induction false} CrlfAppend(a: string, b: string)
    ensures Crlf(a + b) == Crlf(a) + Crlf(b)
    decreases |a|
  {
    if |a| == 0 {
      assert a + b == b;
    } else {
      assert (a + b)[0] == a[0];
      assert (a + b)[1..] == a[1..] + b;
      CrlfAppend(a[1..], b);
    }
  }

  // ---------------------------------------------------------------------------
  // Lengths
  // ---------------------------------------------------------------------------

  /** The number of bytes UTF-8 uses for `c`. */
  function Utf8Width(c: char): (w: nat)
    ensures 1 <= w <= 4
  {
    if c as int < 0x80 then 1
    else if c as int < 0x800 then 2
    else if c as int < 0x1_0000 then 3
    else 4
  }

  /** `s.len()`: the length of `s` in UTF-8 bytes, which is what the drivers
      add to their written-character count. */
  function Utf8Len(s: string): (n: nat)
    ensures |s| <= n <= 4 * |s|
  {
    if |s| == 0 then 0 else Utf8Width(s[0]) + Utf8Len(s[1..])
  }

  predicate IsAscii(s: string) {
    forall i | 0 <= i < |s| :: s[i] as int < 0x80
  }

  /** For ASCII text the byte length is the character count, so the
      statistic counts characters, not counting the inserted carriage
      returns. */
  lemma {:induction false} AsciiLen(s: string)
    requires IsAscii(s)
    ensures Utf8Len(s) == |s|
    ensures |Crlf(s)| == Utf8Len(s) + Newlines(s)
    decreases |s|
  {
    if |s| > 0 {
      assert IsAscii(s[1..]) by {
        forall i | 0 <= i < |s[1..]| ensures s[1..][i] as int < 0x80 {
          assert s[1..][i] == s[i + 1];
        }
      }
      AsciiLen(s[1..]);
    }
  }

  // ---------------------------------------------------------------------------
  // Input
  // ---------------------------------------------------------------------------

  /** `DR.get() as u8 as char`: the low byte of the data register. */
  function LowByte(w: u32): (c: char)
    ensures c as int == w % 256
  {
    (w % 256) as char
  }

  /** The character `read_char` returns for a data-register value: its low
      byte, except that a carriage return reads as a line feed. */
  function ReadChar(w: u32): (c: char)
    ensures c as int < 256
    ensures c != CR
    ensures c == LF <==> w % 256 == 10 || w % 256 == 13
    ensures w % 256 != 13 ==> c as int == w % 256
  {
    var c := LowByte(w);
    if c == CR then LF else c
  }

  /** The word `write_char` stores: the character's scalar value. */
  function CharWord(c: char): (w: u32)
    ensures w == c as int
  {
    c as int
  }

  /** What the receiver reads back from a byte written with `CharWord`: the
      character itself, or a line feed for a carriage return. */
  lemma LoopbackRead(c: char)
    requires c as int < 256
    ensures ReadChar(CharWord(c)) == (if c == CR then LF else c)
  {
  }

  // ---------------------------------------------------------------------------
  // Output as the drivers run it
  // ---------------------------------------------------------------------------

  /** The words the data register receives for a character stream. */
  function Wire(o: string): (ws: seq<u32>)
    ensures |ws| == |o|
    ensures forall i | 0 <= i < |o| :: ws[i] == o[i] as int
  {
    seq(|o|, i requires 0 <= i < |o| => CharWord(o[i]))
  }

  lemma WireAppend(a: string, b: string)
    ensures Wire(a + b) == Wire(a) + Wire(b)
  {
  }

  /** The loop of `write_str`: for each character, a carriage return first
      if it is a line feed, then the character itself. It puts exactly the
      `Crlf` stream on the wire. */
  method Emit(s: string) returns (words: seq<u32>)
    ensures words == Wire(Crlf(s))
  {
    words := [];
    var i := 0;
    while i < |s|
      invariant i <= |s|
      invariant words == Wire(Crlf(s[..i]))
    {
      var c := s[i];
      if c == LF {
        words := words + [CharWord(CR)];
      }
      words := words + [CharWord(c)];
      assert s[..i + 1] == s[..i] + [c];
      CrlfAppend(s[..i], [c]);
      assert [c][1..] == [];
      WireAppend(Crlf(s[..i]), Crlf([c]));
      i := i + 1;
    }
    assert s[..i] == s;
  }
}
