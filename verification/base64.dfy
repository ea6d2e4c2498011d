/** Unpadded standard base64 (RFC 4648, sections 3.2 and 4). */
module Base64 {
  import opened Options
  import opened Text

  type Byte = b: int | 0 <= b < 256
  type Sextet = n: int | 0 <= n < 64

  function CharOf(n: Sextet): char {
    if n < 26 then 'A' + n as char
    else if n < 52 then 'a' + (n - 26) as char
    else if n < 62 then '0' + (n - 52) as char
    else if n == 62 then '+'
    else '/'
  }

  function SextetOf(c: char): Option<Sextet> {
    if 'A' <= c <= 'Z' then Some((c - 'A') as int)
    else if 'a' <= c <= 'z' then Some(26 + (c - 'a') as int)
    else if '0' <= c <= '9' then Some(52 + (c - '0') as int)
    else if c == '+' then Some(62)
    else if c == '/' then Some(63)
    else None
  }

  /** A character of the alphabet. */
  predicate InAlphabet(c: char) {
    SextetOf(c).Some?
  }

  predicate AllInAlphabet(s: string) {
    forall i :: 0 <= i < |s| ==> InAlphabet(s[i])
  }

  function Encode(bs: seq<Byte>): string {
    if |bs| == 0 then ""
    else if |bs| == 1 then [CharOf(bs[0] / 4), CharOf(bs[0] % 4 * 16)]
    else if |bs| == 2 then
      [CharOf(bs[0] / 4), CharOf(bs[0] % 4 * 16 + bs[1] / 16), CharOf(bs[1] % 16 * 4)]
    else
      [CharOf(bs[0] / 4), CharOf(bs[0] % 4 * 16 + bs[1] / 16), CharOf(bs[1] % 16 * 4 + bs[2] / 64), CharOf(bs[2] % 64)] +
      Encode(bs[3..])
  }

  function First(a: Sextet, b: Sextet): Byte {
    a * 4 + b / 16
  }

  function Second(b: Sextet, c: Sextet): Byte {
    b % 16 * 16 + c / 4
  }

  function Third(c: Sextet, d: Sextet): Byte {
    c % 4 * 64 + d
  }

  /** Decoding without line breaks; left-over low bits of the last character are ignored. */
  function DecodeGroups(s: string): Option<seq<Byte>> {
    if |s| == 0 then Some([])
    else if |s| == 1 || SextetOf(s[0]).None? || SextetOf(s[1]).None? then None
    else
      var a, b := SextetOf(s[0]).value, SextetOf(s[1]).value;
      if |s| == 2 then Some([First(a, b)])
      else if SextetOf(s[2]).None? then None
      else
        var c := SextetOf(s[2]).value;
        if |s| == 3 then Some([First(a, b), Second(b, c)])
        else if SextetOf(s[3]).None? then None
        else
          match DecodeGroups(s[4..])
          case None => None
          case Some(rest) => Some([First(a, b), Second(b, c), Third(c, SextetOf(s[3]).value)] + rest)
  }

  /** The decoder skips line breaks anywhere. */
  function DropBreaks(s: string): string {
    if s == "" then ""
    else if s[0] == '\r' || s[0] == '\n' then DropBreaks(s[1..])
    else [s[0]] + DropBreaks(s[1..])
  }

  function Decode(s: string): Option<seq<Byte>> {
    DecodeGroups(DropBreaks(s))
  }

  lemma CharReadsBack(n: Sextet)
    ensures SextetOf(CharOf(n)) == Some(n)
  {}

  lemma {:induction false} EncodeUsesAlphabet(bs: seq<Byte>)
    ensures AllInAlphabet(Encode(bs))
    ensures bs != [] ==> Encode(bs) != ""
  {
    hide CharOf, SextetOf;
    if |bs| > 0 {
      CharReadsBack(bs[0] / 4);
      CharReadsBack(bs[0] % 4 * 16);
    }
    if |bs| > 1 {
      CharReadsBack(bs[0] % 4 * 16 + bs[1] / 16);
      CharReadsBack(bs[1] % 16 * 4);
    }
    if |bs| > 2 {
      CharReadsBack(bs[1] % 16 * 4 + bs[2] / 64);
      CharReadsBack(bs[2] % 64);
      EncodeUsesAlphabet(bs[3..]);
    }
  }

  lemma {:induction false} NoBreaksToDrop(s: string)
    requires AllInAlphabet(s)
    ensures DropBreaks(s) == s
  {
    if s != "" {
      assert InAlphabet(s[0]);
      assert forall i :: 0 <= i < |s[1..]| ==> s[1..][i] == s[i + 1];
      NoBreaksToDrop(s[1..]);
      assert s == [s[0]] + s[1..];
    }
  }

  lemma BytesReadBack(a: Byte, b: Byte, c: Byte)
    ensures First(a / 4, a % 4 * 16 + b / 16) == a
    ensures First(a / 4, a % 4 * 16) == a
    ensures Second(a % 4 * 16 + b / 16, b % 16 * 4 + c / 64) == b
    ensures Second(a % 4 * 16 + b / 16, b % 16 * 4) == b
    ensures Third(b % 16 * 4 + c / 64, c % 64) == c
  {}

  lemma {:induction false} GroupsReadBack(bs: seq<Byte>)
    ensures DecodeGroups(Encode(bs)) == Some(bs)
  {
    hide CharOf, SextetOf, First, Second, Third;
    if |bs| == 1 {
      CharReadsBack(bs[0] / 4);
      CharReadsBack(bs[0] % 4 * 16);
      BytesReadBack(bs[0], 0, 0);
      assert bs == [bs[0]];
    } else if |bs| == 2 {
      CharReadsBack(bs[0] / 4);
      CharReadsBack(bs[0] % 4 * 16 + bs[1] / 16);
      CharReadsBack(bs[1] % 16 * 4);
      BytesReadBack(bs[0], bs[1], 0);
      assert bs == [bs[0], bs[1]];
    } else if |bs| > 2 {
      FullGroup(bs[0], bs[1], bs[2], bs[3..]);
      GroupsReadBack(bs[3..]);
      assert [bs[0], bs[1], bs[2]] + bs[3..] == bs;
    }
  }

  /** The four characters of three bytes. */
  function Quad(a: Byte, b: Byte, c: Byte): (q: string)
    ensures |q| == 4
  {
    [CharOf(a / 4), CharOf(a % 4 * 16 + b / 16), CharOf(b % 16 * 4 + c / 64), CharOf(c % 64)]
  }

  lemma FullGroup(a: Byte, b: Byte, c: Byte, rest: seq<Byte>)
    ensures Encode([a, b, c] + rest) == Quad(a, b, c) + Encode(rest)
    ensures var r := DecodeGroups(Encode(rest));
            DecodeGroups(Quad(a, b, c) + Encode(rest)) == if r.None? then None else Some([a, b, c] + r.value)
  {
    hide CharOf, SextetOf, First, Second, Third;
    CharReadsBack(a / 4);
    CharReadsBack(a % 4 * 16 + b / 16);
    CharReadsBack(b % 16 * 4 + c / 64);
    CharReadsBack(c % 64);
    BytesReadBack(a, b, c);
    var bs := [a, b, c] + rest;
    assert bs[3..] == rest;
    var s := Quad(a, b, c) + Encode(rest);
    assert s[4..] == Encode(rest);
  }

  /** Every byte string comes back from its encoding. */
  lemma EncodeReadsBack(bs: seq<Byte>)
    ensures Decode(Encode(bs)) == Some(bs)
  {
    EncodeUsesAlphabet(bs);
    NoBreaksToDrop(Encode(bs));
    GroupsReadBack(bs);
  }
}
